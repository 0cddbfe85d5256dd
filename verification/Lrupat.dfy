/** The compressed trie of libdank/objects/lrupat.c as values: nodes in a slab that only
    grows while the trie lives, linked by slab position. */
module LpatNodes {
  import Ctype
  import opened Options

  /** A character of an ASCIIZ string; 0 ends the string. */
  type Byte = c: int | 0 < c < 256 witness 1
  type Key = seq<Byte>

  /** A stored object; NULL is the empty pointer. */
  type Obj = nat
  const NULL: Obj := 0

  /** The non-NULL entries of arr, the object, and the tail string if there is a key here. */
  datatype LpatNode = LpatNode(arr: map<Byte, nat>, obj: Obj, patstr: Option<Key>)

  const BLANK: LpatNode := LpatNode(map[], NULL, None)

  type Slab = seq<LpatNode>

  /** tolower() in the C locale. */
  function ToLower(c: Byte): Byte { if 'A' as int <= c <= 'Z' as int then c + 32 else c }

  /** Case is folded in the nocase functions only. */
  function Fold(nocase: bool, c: Byte): Byte { if nocase then ToLower(c) else c }

  function FoldKey(nocase: bool, k: Key): (r: Key)
    ensures |r| == |k| && forall i :: 0 <= i < |k| ==> r[i] == Fold(nocase, k[i])
  {
    seq(|k|, i requires 0 <= i < |k| => Fold(nocase, k[i]))
  }

  predicate Folded(nocase: bool, k: Key) { FoldKey(nocase, k) == k }

  lemma FoldTwice(nocase: bool, k: Key)
    ensures Folded(nocase, FoldKey(nocase, k))
  {
  }

  // ----- what folding identifies

  predicate IsCapital(c: int) { exists i :: 0 <= i < 26 && c == Ctype.CAPITALS[i] as int }

  /** The capital and the small form of one letter, in either order. */
  predicate OneLetter(c: int, d: int) {
    exists i :: 0 <= i < 26 && ((c == Ctype.CAPITALS[i] as int && d == Ctype.SMALLS[i] as int)
                                || (d == Ctype.CAPITALS[i] as int && c == Ctype.SMALLS[i] as int))
  }

  /** Equal, or without regard to case equal but for the case of letters. */
  predicate Alike(nocase: bool, j: Key, k: Key) {
    |j| == |k| && forall i :: 0 <= i < |j| ==> j[i] == k[i] || (nocase && OneLetter(j[i], k[i]))
  }

  lemma LettersAre(c: int, d: int)
    ensures IsCapital(c) <==> 65 <= c <= 90
    ensures OneLetter(c, d) <==> (65 <= c <= 90 && d == c + 32) || (65 <= d <= 90 && c == d + 32)
  {
    forall i | 0 <= i < 26 ensures Ctype.CAPITALS[i] as int == 65 + i && Ctype.SMALLS[i] as int == 97 + i {}
    if 65 <= c <= 90 { assert Ctype.CAPITALS[c - 65] as int == c; }
    if 65 <= d <= 90 { assert Ctype.CAPITALS[d - 65] as int == d; }
  }

  /** Folding makes two keys one exactly if they differ in case only, and not at all without nocase;
      and what it makes of them has no capitals and differs from them in case only. */
  lemma FoldingIs(nocase: bool, j: Key, k: Key)
    ensures FoldKey(nocase, j) == FoldKey(nocase, k) <==> Alike(nocase, j, k)
    ensures Alike(nocase, FoldKey(nocase, k), k)
    ensures nocase ==> forall i :: 0 <= i < |k| ==> !IsCapital(FoldKey(nocase, k)[i])
  {
    hide IsCapital, OneLetter;
    forall c, d ensures (IsCapital(c) <==> 65 <= c <= 90)
                        && (OneLetter(c, d) <==> (65 <= c <= 90 && d == c + 32) || (65 <= d <= 90 && c == d + 32)) {
      LettersAre(c, d);
    }
    if nocase {
      forall i | 0 <= i < |k| ensures !IsCapital(FoldKey(nocase, k)[i]) {
        assert !(65 <= FoldKey(nocase, k)[i] <= 90);
        LettersAre(FoldKey(nocase, k)[i], 0);
      }
    }
    if FoldKey(nocase, j) == FoldKey(nocase, k) {
      forall i | 0 <= i < |j| ensures j[i] == k[i] || (nocase && OneLetter(j[i], k[i])) {
        assert FoldKey(nocase, j)[i] == FoldKey(nocase, k)[i];
      }
    }
  }

  // ----- the trie as a finite map

  /** The slab and the root pointer, with the bookkeeping that no C field holds: at[w] is the
      node reached from the root along w, path[p] the way to node p (None once p is cut off),
      and home[k] the node that holds key k. */
  datatype Trie = Trie(slab: Slab, root: Option<nat>, at: map<Key, nat>, path: seq<Option<Key>>, home: map<Key, nat>)

  const EMPTY: Trie := Trie([], None, map[], [], map[])

  predicate HasTail(n: LpatNode) { n.patstr.Some? && n.patstr.value != [] }

  function Child(w: Key, c: Byte): (r: Key)
    ensures |r| == |w| + 1 && r[..|w|] == w && r[|w|] == c
  {
    w + [c]
  }

  function Parent(w: Key): Key
    requires w != []
  {
    w[..|w| - 1]
  }

  /** Each word that the trie spells leads to its own node, through its parent's entry. */
  predicate Word(t: Trie, w: Key) {
    && w in t.at && t.at[w] < |t.slab| == |t.path| && t.path[t.at[w]] == Some(w)
    && (w == [] || (Parent(w) in t.at && t.at[Parent(w)] < |t.slab| && w[|w| - 1] in t.slab[t.at[Parent(w)]].arr
                    && t.slab[t.at[Parent(w)]].arr[w[|w| - 1]] == t.at[w]))
  }

  /** A node that can be reached is reached along its path only, nothing branches off a tail,
      every entry of arr continues the path, and a node without a key has no object. */
  predicate Linked(t: Trie, p: nat)
    requires p < |t.slab| == |t.path|
  {
    && (t.path[p].Some? ==> t.path[p].value in t.at && t.at[t.path[p].value] == p)
    && (HasTail(t.slab[p]) ==> t.slab[p].arr == map[])
    && (t.path[p].Some? ==> forall c :: c in t.slab[p].arr ==> Child(t.path[p].value, c) in t.at)
    && (t.slab[p].patstr.None? ==> t.slab[p].obj == NULL)
    && (t.slab[p].patstr.Some? ==> t.path[p].Some?)
  }

  predicate Attached(t: Trie) {
    && |t.path| == |t.slab|
    && t.root == (if [] in t.at then Some(t.at[[]]) else None)
    && (forall w {:trigger Word(t, w)} :: w in t.at ==> Word(t, w))
    && (forall p {:trigger Linked(t, p)} :: 0 <= p < |t.slab| ==> Linked(t, p))
  }

  /** The key that node p holds. */
  function KeyAt(t: Trie, p: nat): Key
    requires p < |t.slab| == |t.path| && t.path[p].Some? && t.slab[p].patstr.Some?
  {
    t.path[p].value + t.slab[p].patstr.value
  }

  /** home and the keys in the nodes agree. */
  predicate Homed(t: Trie)
    requires |t.slab| == |t.path|
  {
    && (forall k {:trigger Housed(t, k)} :: k in t.home ==> Housed(t, k))
    && (forall p {:trigger Keyed(t, p)} :: 0 <= p < |t.slab| ==> Keyed(t, p))
  }

  predicate Keyed(t: Trie, p: nat)
    requires p < |t.slab| == |t.path|
  {
    t.slab[p].patstr.Some? ==> t.path[p].Some? && KeyAt(t, p) in t.home && t.home[KeyAt(t, p)] == p
  }

  predicate Housed(t: Trie, k: Key)
    requires |t.slab| == |t.path|
  {
    && k in t.home && t.home[k] < |t.slab|
    && t.path[t.home[k]].Some? && t.slab[t.home[k]].patstr.Some? && KeyAt(t, t.home[k]) == k
  }

  predicate Valid(t: Trie) { Attached(t) && Homed(t) }

  function ObjectOf(t: Trie, k: Key): Obj
    requires Valid(t) && k in t.home
  {
    assert Housed(t, k);
    t.slab[t.home[k]].obj
  }

  /** The finite map that the trie stands for. */
  function Contents(t: Trie): map<Key, Obj>
    requires Valid(t)
  {
    map k | k in t.home :: ObjectOf(t, k)
  }

  lemma {:induction false} PrefixesAttached(t: Trie, w: Key, n: nat)
    requires Attached(t) && w in t.at && n < |w|
    ensures Word(t, w[..n]) && w[n] in t.slab[t.at[w[..n]]].arr && Word(t, w[..n + 1])
  {
    assert Word(t, w);
    var front := Parent(w);
    assert Word(t, front);
    if n + 1 < |w| {
      PrefixesAttached(t, front, n);
      assert front[..n] == w[..n] && front[..n + 1] == w[..n + 1];
    } else {
      assert w[..n + 1] == w;
    }
  }

  /** Nothing lies below a tail. */
  lemma NotBelowTail(t: Trie, u: Key, w: Key)
    requires Attached(t) && w in t.at && u < w
    ensures Word(t, u) && !HasTail(t.slab[t.at[u]])
  {
    PrefixesAttached(t, w, |u|);
    assert w[..|u|] == u;
    assert Linked(t, t.at[u]);
  }

  /** Nothing lies below a word that leads nowhere. */
  lemma NothingBelow(t: Trie, w: Key, u: Key)
    requires Attached(t) && w !in t.at && u in t.at
    ensures !(w <= u)
  {
    assert u[..|u|] == u;
    if w <= u {
      assert u[..|w|] == w;
      if |w| < |u| { PrefixesAttached(t, u, |w|); }
    }
  }

  /** Two prefixes of one string. */
  lemma PrefixesNest(u: Key, s: Key, w: Key, x: Key)
    requires u + s == w + x && |u| < |w|
    ensures u < w && u <= Parent(w)
  {
    var k := u + s;
    assert u == k[..|u|] && w == k[..|w|];
    assert w[..|u|] == u && Parent(w)[..|u|] == u;
  }

  // ----- the three ways in which adding a key changes the slab

  /** A `lpatnode **`: the root pointer or one entry of a node's arr. */
  datatype Slot = Root | Entry(node: nat, c: Byte)

  /** slot is the place that points, or will point, to the node reached along w. */
  predicate SlotOf(t: Trie, slot: Slot, w: Key) {
    if w == [] then slot == Root
    else Parent(w) in t.at && t.at[Parent(w)] < |t.slab| && !HasTail(t.slab[t.at[Parent(w)]])
         && slot == Entry(t.at[Parent(w)], w[|w| - 1])
  }

  function Load(slab: Slab, root: Option<nat>, slot: Slot): Option<nat>
    requires slot.Entry? ==> slot.node < |slab|
  {
    match slot
    case Root => root
    case Entry(p, c) => if c in slab[p].arr then Some(slab[p].arr[c]) else None
  }

  function Store(slab: Slab, slot: Slot, q: nat): (r: Slab)
    requires slot.Entry? ==> slot.node < |slab|
    ensures |r| == |slab|
  {
    match slot
    case Root => slab
    case Entry(p, c) => slab[p := slab[p].(arr := slab[p].arr[c := q])]
  }

  function StoreRoot(root: Option<nat>, slot: Slot, q: nat): Option<nat> {
    if slot.Root? then Some(q) else root
  }

  lemma LoadIsAttached(t: Trie, slot: Slot, w: Key)
    requires Attached(t) && SlotOf(t, slot, w)
    ensures Load(t.slab, t.root, slot) == if w in t.at then Some(t.at[w]) else None
  {
    if w != [] {
      assert Child(Parent(w), w[|w| - 1]) == w;
      var p := t.at[Parent(w)];
      assert Word(t, Parent(w)) && Linked(t, p);
      if w in t.at { assert Word(t, w); }
    }
  }

  /** A new node whose tail is the whole of the rest of the key. */
  function AddLeaf(t: Trie, slot: Slot, w: Key, key: Key, obj: Obj): Trie
    requires slot.Entry? ==> slot.node < |t.slab|
  {
    var n := |t.slab|;
    Trie(Store(t.slab + [LpatNode(map[], obj, Some(key))], slot, n), StoreRoot(t.root, slot, n),
         t.at[w := n], t.path + [Some(w)], t.home[w + key := n])
  }

  lemma AddLeafIsInsert(t: Trie, slot: Slot, w: Key, key: Key, obj: Obj)
    requires Valid(t) && SlotOf(t, slot, w) && w !in t.at
    ensures Valid(AddLeaf(t, slot, w, key, obj))
    ensures w + key !in t.home
    ensures Contents(AddLeaf(t, slot, w, key, obj)) == Contents(t)[w + key := obj]
  {
    AddLeafAttached(t, slot, w, key, obj);
    AddLeafIsNew(t, slot, w, key);
    AddLeafHomed(t, slot, w, key, obj);
    AddLeafContents(t, slot, w, key, obj);
  }

  lemma AddLeafAttached(t: Trie, slot: Slot, w: Key, key: Key, obj: Obj)
    requires Attached(t) && SlotOf(t, slot, w) && w !in t.at
    ensures Attached(AddLeaf(t, slot, w, key, obj))
  {
    var t' := AddLeaf(t, slot, w, key, obj);
    forall u | u in t'.at ensures Word(t', u) {
      AddLeafWord(t, slot, w, key, obj, u);
    }
    forall p | 0 <= p < |t'.slab| ensures Linked(t', p) {
      AddLeafLinked(t, slot, w, key, obj, p);
    }
  }

  lemma AddLeafLinked(t: Trie, slot: Slot, w: Key, key: Key, obj: Obj, p: nat)
    requires Attached(t) && SlotOf(t, slot, w) && w !in t.at && p <= |t.slab|
    ensures var t' := AddLeaf(t, slot, w, key, obj); |t'.slab| == |t'.path| && Linked(t', p)
  {
    if p < |t.slab| {
      assert Linked(t, p);
      if slot.Entry? && p == slot.node {
        assert Word(t, Parent(w)) && Child(Parent(w), slot.c) == w;
      }
    }
  }

  lemma AddLeafWord(t: Trie, slot: Slot, w: Key, key: Key, obj: Obj, u: Key)
    requires Attached(t) && SlotOf(t, slot, w) && w !in t.at && (u == w || u in t.at)
    ensures Word(AddLeaf(t, slot, w, key, obj), u)
  {
    if w != [] { assert Word(t, Parent(w)); }
    if u != w {
      assert Word(t, u);
      if u != [] {
        assert Word(t, Parent(u));
        if w != [] && t.at[Parent(u)] == t.at[Parent(w)] { assert u == Parent(u) + [u[|u| - 1]] && w == Parent(w) + [w[|w| - 1]]; }
      }
    }
  }

  lemma AddLeafIsNew(t: Trie, slot: Slot, w: Key, key: Key)
    requires Valid(t) && SlotOf(t, slot, w) && w !in t.at
    ensures w + key !in t.home
  {
    if w + key in t.home {
      assert Housed(t, w + key);
      var p := t.home[w + key];
      var u := t.path[p].value;
      assert Linked(t, p);
      if |u| < |w| {
        PrefixesNest(u, t.slab[p].patstr.value, w, key);
        if u != Parent(w) { NotBelowTail(t, u, Parent(w)); }
      } else {
        assert w <= u by { assert (w + key)[..|u|] == u && (w + key)[..|w|] == w && u[..|w|] == w; }
        NothingBelow(t, w, u);
      }
    }
  }

  lemma AddLeafHomed(t: Trie, slot: Slot, w: Key, key: Key, obj: Obj)
    requires Valid(t) && SlotOf(t, slot, w) && w !in t.at && w + key !in t.home
    requires Attached(AddLeaf(t, slot, w, key, obj))
    ensures Homed(AddLeaf(t, slot, w, key, obj))
  {
    hide Word, Linked;
    var t' := AddLeaf(t, slot, w, key, obj);
    forall k | k in t'.home ensures Housed(t', k) {
      if k != w + key { assert Housed(t, k); }
    }
    forall p | 0 <= p < |t'.slab| ensures Keyed(t', p) {
      if p < |t.slab| { assert Keyed(t, p); }
    }
  }

  lemma AddLeafContents(t: Trie, slot: Slot, w: Key, key: Key, obj: Obj)
    requires Valid(t) && SlotOf(t, slot, w) && w !in t.at && w + key !in t.home
    requires Valid(AddLeaf(t, slot, w, key, obj))
    ensures Contents(AddLeaf(t, slot, w, key, obj)) == Contents(t)[w + key := obj]
  {
    var t' := AddLeaf(t, slot, w, key, obj);
    forall k | k in t.home ensures t'.home[k] < |t.slab| { assert Housed(t, k); }
  }

  /** A key that ends at a node which is not a tail. */
  function SetHere(t: Trie, w: Key, obj: Obj): Trie
    requires w in t.at && t.at[w] < |t.slab|
  {
    var p := t.at[w];
    t.(slab := t.slab[p := t.slab[p].(patstr := Some([]), obj := obj)], home := t.home[w := p])
  }

  lemma SetHereIsUpdate(t: Trie, w: Key, obj: Obj)
    requires Valid(t) && w in t.at && Word(t, w) && !HasTail(t.slab[t.at[w]])
    ensures w in t.home <==> t.slab[t.at[w]].patstr == Some([])
    ensures w in t.home ==> t.home[w] == t.at[w]
    ensures Valid(SetHere(t, w, obj))
    ensures Contents(SetHere(t, w, obj)) == Contents(t)[w := obj]
  {
    OwnHome(t, w);
    SetHereAttached(t, w, obj);
    SetHereHomed(t, w, obj);
  }

  /** A word that does not end in a tail is a key only at its own node. */
  lemma OwnHome(t: Trie, w: Key)
    requires Valid(t) && w in t.at && Word(t, w) && !HasTail(t.slab[t.at[w]])
    ensures w in t.home <==> t.slab[t.at[w]].patstr == Some([])
    ensures w in t.home ==> t.home[w] == t.at[w]
  {
    var p := t.at[w];
    assert Linked(t, p);
    assert Keyed(t, p) && w + [] == w;
    if w in t.home {
      assert Housed(t, w);
      var q := t.home[w];
      var u := t.path[q].value;
      assert u <= w && Linked(t, q);
      if u != w { NotBelowTail(t, u, w); }
      assert u == w;
    }
  }

  lemma SetHereAttached(t: Trie, w: Key, obj: Obj)
    requires Attached(t) && w in t.at && Word(t, w)
    ensures Attached(SetHere(t, w, obj))
  {
    var t' := SetHere(t, w, obj);
    forall u | u in t'.at ensures Word(t', u) {
      assert Word(t, u);
    }
    forall p | 0 <= p < |t'.slab| ensures Linked(t', p) {
      assert Linked(t, p);
    }
  }

  lemma SetHereHomed(t: Trie, w: Key, obj: Obj)
    requires Valid(t) && w in t.at && Word(t, w) && !HasTail(t.slab[t.at[w]])
    requires w in t.home ==> t.home[w] == t.at[w]
    requires Attached(SetHere(t, w, obj))
    ensures Homed(SetHere(t, w, obj))
    ensures Contents(SetHere(t, w, obj)) == Contents(t)[w := obj]
  {
    var t', n := SetHere(t, w, obj), t.at[w];
    assert w + [] == w;
    forall k | k in t.home && k != w ensures t.home[k] != n {
      assert Housed(t, k);
    }
    forall k | k in t'.home ensures Housed(t', k) {
      if k != w { assert Housed(t, k); }
    }
    forall p | 0 <= p < |t'.slab| ensures Keyed(t', p) {
      assert Keyed(t, p) && (t.path[n] == Some(w));
    }
  }

  // ----- flattening a tail

  /** One node for each character of s and one more, which has the key. */
  function Chain(n: nat, s: Key, obj: Obj): (r: Slab)
    ensures |r| == |s| + 1
  {
    seq(|s| + 1, i requires 0 <= i <= |s| =>
      if i < |s| then LpatNode(map[s[i] := n + i + 1], NULL, None) else LpatNode(map[], obj, Some([])))
  }

  /** w followed by the first i characters of s. */
  function Step(w: Key, s: Key, i: nat): (r: Key)
    requires i <= |s|
    ensures |r| == |w| + i && w <= r && (i == 0 ==> r == w) && (i == |s| ==> r == w + s)
  {
    w + s[..i]
  }

  lemma StepOn(w: Key, s: Key, i: nat)
    requires i < |s|
    ensures Child(Step(w, s, i), s[i]) == Step(w, s, i + 1) && Parent(Step(w, s, i + 1)) == Step(w, s, i)
    ensures Step(w, s, i + 1)[|w| + i] == s[i]
  {
    assert s[..i + 1] == s[..i] + [s[i]];
  }

  predicate OnChain(w: Key, s: Key, u: Key) {
    |w| <= |u| <= |w| + |s| && u == Step(w, s, |u| - |w|)
  }

  function ChainWords(w: Key, s: Key): (r: set<Key>)
    ensures forall u :: u in r <==> OnChain(w, s, u)
  {
    set i | 0 <= i <= |s| :: Step(w, s, i)
  }

  /** The tail at w becomes a chain that spells f: the tail itself, or in lower case.  Its old node
      stays in the slab, cut off and empty. */
  function Decay(t: Trie, slot: Slot, w: Key, f: Key): Trie
    requires slot.Entry? ==> slot.node < |t.slab|
    requires w in t.at && t.at[w] < |t.slab| == |t.path| && HasTail(t.slab[t.at[w]])
  {
    var n, p := |t.slab|, t.at[w];
    var s := t.slab[p].patstr.value;
    Trie(Store(t.slab[p := t.slab[p].(obj := NULL, patstr := None)] + Chain(n, f, t.slab[p].obj), slot, n),
         StoreRoot(t.root, slot, n),
         map u | u in t.at.Keys + ChainWords(w, f) :: if OnChain(w, f, u) then n + |u| - |w| else t.at[u],
         t.path[p := None] + seq(|f| + 1, i requires 0 <= i <= |f| => Some(Step(w, f, i))),
         (t.home - {w + s})[w + f := n + |f|])
  }

  predicate Flattens(t: Trie, slot: Slot, w: Key) {
    Valid(t) && SlotOf(t, slot, w) && Word(t, w) && HasTail(t.slab[t.at[w]])
  }

  // What Decay does to one node and one word at a time; the proofs below use only this.

  predicate OldNode(t: Trie, t': Trie, slot: Slot, p: nat, q: nat)
    requires q < |t.slab| == |t.path| <= |t'.slab| == |t'.path|
  {
    && t'.path[q] == (if q == p then None else t.path[q])
    && t'.slab[q] == (if q == p then t.slab[q].(obj := NULL, patstr := None)
                      else if slot.Entry? && slot.node == q then t.slab[q].(arr := t.slab[q].arr[slot.c := |t.slab|])
                      else t.slab[q])
  }

  predicate NewNode(t: Trie, t': Trie, w: Key, f: Key, obj: Obj, i: nat)
    requires |t'.slab| == |t'.path| == |t.slab| + |f| + 1 && i <= |f|
  {
    && t'.path[|t.slab| + i] == Some(Step(w, f, i))
    && t'.slab[|t.slab| + i] == (if i < |f| then LpatNode(map[f[i] := |t.slab| + i + 1], NULL, None)
                                 else LpatNode(map[], obj, Some([])))
  }

  predicate WordNode(t: Trie, t': Trie, w: Key, f: Key, u: Key) {
    && (u in t'.at <==> u in t.at || OnChain(w, f, u))
    && (u in t'.at ==> t'.at[u] == if OnChain(w, f, u) then |t.slab| + |u| - |w| else t.at[u])
  }

  ghost predicate Flattened(t: Trie, t': Trie, slot: Slot, w: Key, f: Key) {
    Flattens(t, slot, w) &&
    var n, p := |t.slab|, t.at[w];
    var s := t.slab[p].patstr.value;
    && |t'.slab| == |t'.path| == n + |f| + 1
    && t'.root == StoreRoot(t.root, slot, n)
    && t'.home == (t.home - {w + s})[w + f := n + |f|]
    && (forall q {:trigger OldNode(t, t', slot, p, q)} :: 0 <= q < n ==> OldNode(t, t', slot, p, q))
    && (forall i {:trigger NewNode(t, t', w, f, t.slab[p].obj, i)} :: 0 <= i <= |f| ==> NewNode(t, t', w, f, t.slab[p].obj, i))
    && (forall u {:trigger WordNode(t, t', w, f, u)} :: WordNode(t, t', w, f, u))
  }

  /** slot is not a field of the tail itself. */
  predicate Detachable(t: Trie, slot: Slot, w: Key) {
    && w in t.at && t.at[w] < |t.slab| == |t.path| && HasTail(t.slab[t.at[w]])
    && (slot.Entry? ==> slot.node < |t.slab| && slot.node != t.at[w])
  }

  lemma DecayOld(t: Trie, slot: Slot, w: Key, f: Key, q: nat)
    requires Detachable(t, slot, w) && q < |t.slab|
    ensures |Decay(t, slot, w, f).slab| == |Decay(t, slot, w, f).path| == |t.slab| + |f| + 1
    ensures OldNode(t, Decay(t, slot, w, f), slot, t.at[w], q)
  {
  }

  lemma DecayNew(t: Trie, slot: Slot, w: Key, f: Key, i: nat)
    requires Detachable(t, slot, w) && i <= |f|
    ensures |Decay(t, slot, w, f).slab| == |Decay(t, slot, w, f).path| == |t.slab| + |f| + 1
    ensures NewNode(t, Decay(t, slot, w, f), w, f, t.slab[t.at[w]].obj, i)
  {
    hide Step;
  }

  lemma DecayFields(t: Trie, slot: Slot, w: Key, f: Key)
    requires Detachable(t, slot, w)
    ensures var t', s := Decay(t, slot, w, f), t.slab[t.at[w]].patstr.value;
      && t'.root == StoreRoot(t.root, slot, |t.slab|)
      && t'.home == (t.home - {w + s})[w + f := |t.slab| + |f|]
      && forall u {:trigger WordNode(t, t', w, f, u)} :: WordNode(t, t', w, f, u)
  {
  }

  lemma DetachableTail(t: Trie, slot: Slot, w: Key)
    requires Flattens(t, slot, w)
    ensures Detachable(t, slot, w)
  {
    if w != [] { assert Word(t, Parent(w)); }
  }

  lemma DecayFlattens(t: Trie, slot: Slot, w: Key, f: Key)
    requires Flattens(t, slot, w)
    ensures Flattened(t, Decay(t, slot, w, f), slot, w, f)
  {
    DetachableTail(t, slot, w);
    DecayOld(t, slot, w, f, t.at[w]);
    DecayFields(t, slot, w, f);
    hide Valid, OldNode, NewNode, WordNode, Word, SlotOf, Decay;
    var t', n, p := Decay(t, slot, w, f), |t.slab|, t.at[w];
    var s, obj := t.slab[p].patstr.value, t.slab[p].obj;
    forall q | 0 <= q < n ensures OldNode(t, t', slot, p, q) { DecayOld(t, slot, w, f, q); }
    forall i | 0 <= i <= |f| ensures NewNode(t, t', w, f, obj, i) { DecayNew(t, slot, w, f, i); }
  }

  /** The map after the key of the tail at w has become w + f. */
  function Renamed(t: Trie, w: Key, f: Key): map<Key, Obj>
    requires Valid(t) && Word(t, w) && HasTail(t.slab[t.at[w]])
  {
    (Contents(t) - {w + t.slab[t.at[w]].patstr.value})[w + f := t.slab[t.at[w]].obj]
  }

  /** Spelled as it is, the tail keeps its key. */
  lemma RenamedToItself(t: Trie, w: Key)
    requires Valid(t) && Word(t, w) && HasTail(t.slab[t.at[w]])
    ensures Renamed(t, w, t.slab[t.at[w]].patstr.value) == Contents(t)
  {
    assert Keyed(t, t.at[w]);
  }

  /** No other key begins with w. */
  lemma OnlyKeyBelow(t: Trie, slot: Slot, w: Key, k: Key)
    requires Flattens(t, slot, w) && w <= k && k in t.home
    ensures k == w + t.slab[t.at[w]].patstr.value
  {
    assert Housed(t, k);
    var p := t.home[k];
    var u := t.path[p].value;
    assert Linked(t, p);
    if |u| < |w| {
      PrefixesNest(u, t.slab[p].patstr.value, w, k[|w|..]);
      NotBelowTail(t, u, w);
    } else {
      assert w <= u by { assert k[..|u|] == u && k[..|w|] == w && u[..|w|] == w; }
      OnlyTheTailItself(t, slot, w, u);
    }
  }

  lemma DecayRenames(t: Trie, slot: Slot, w: Key, f: Key)
    requires Flattens(t, slot, w)
    ensures var t' := Decay(t, slot, w, f);
      Valid(t') && Contents(t') == Renamed(t, w, f) && SlotOf(t', slot, w) && Word(t', w) && !HasTail(t'.slab[t'.at[w]])
  {
    DecayFlattens(t, slot, w, f);
    FlattenedIsValid(t, Decay(t, slot, w, f), slot, w, f);
  }

  lemma FlattenedIsValid(t: Trie, t': Trie, slot: Slot, w: Key, f: Key)
    requires Flattened(t, t', slot, w, f)
    ensures Valid(t') && Contents(t') == Renamed(t, w, f) && SlotOf(t', slot, w) && Word(t', w) && !HasTail(t'.slab[t'.at[w]])
  {
    FlattenedAttached(t, t', slot, w, f);
    FlattenedHomed(t, t', slot, w, f);
    DecayTailWord(t, t', slot, w, f);
    assert t'.home.Keys == t.home.Keys - {w + t.slab[t.at[w]].patstr.value} + {w + f};
    hide Flattened, Attached, Homed, Housed;
    forall k | k in t'.home ensures k in Renamed(t, w, f) && ObjectOf(t', k) == Renamed(t, w, f)[k] {
      DecayHoused(t, t', slot, w, f, k);
    }
    assert Contents(t').Keys == t'.home.Keys && Contents(t).Keys == t.home.Keys;
  }

  lemma FlattenedAttached(t: Trie, t': Trie, slot: Slot, w: Key, f: Key)
    requires Flattened(t, t', slot, w, f)
    ensures Attached(t')
  {
    DecayTailWord(t, t', slot, w, f);
    assert |t'.slab| == |t'.path|;
    hide Word, Linked, Flattened;
    forall u | u in t'.at ensures Word(t', u) { DecayWord(t, t', slot, w, f, u); }
    forall p | 0 <= p < |t'.slab| ensures Linked(t', p) { DecayLinked(t, t', slot, w, f, p); }
  }

  lemma FlattenedHomed(t: Trie, t': Trie, slot: Slot, w: Key, f: Key)
    requires Flattened(t, t', slot, w, f)
    ensures |t'.slab| == |t'.path| && Homed(t')
  {
    assert |t'.slab| == |t'.path|;
    hide Housed, Keyed, KeyAt, Flattened;
    forall k | k in t'.home ensures Housed(t', k) { DecayHoused(t, t', slot, w, f, k); }
    forall q | 0 <= q < |t'.slab| ensures Keyed(t', q) { DecayKeyed(t, t', slot, w, f, q); }
  }

  lemma OnlyTheTailItself(t: Trie, slot: Slot, w: Key, u: Key)
    requires Flattens(t, slot, w) && u in t.at && w <= u
    ensures u == w
  {
    if u != w { NotBelowTail(t, w, u); }
  }

  lemma DecayWord(t: Trie, t': Trie, slot: Slot, w: Key, f: Key, u: Key)
    requires Flattened(t, t', slot, w, f) && u in t'.at
    ensures Word(t', u)
  {
    var s := t.slab[t.at[w]].patstr.value;
    assert WordNode(t, t', w, f, u);
    if OnChain(w, f, u) {
      if u == w { DecayTailWord(t, t', slot, w, f); } else { DecayNewWord(t, t', slot, w, f, u); }
    } else {
      DecayOldWord(t, t', slot, w, f, u);
    }
  }

  lemma DecayTailWord(t: Trie, t': Trie, slot: Slot, w: Key, f: Key)
    requires Flattened(t, t', slot, w, f)
    ensures Word(t', w) && t'.at[w] == |t.slab| && SlotOf(t', slot, w) && !HasTail(t'.slab[|t.slab|])
    ensures t'.root == if [] in t'.at then Some(t'.at[[]]) else None
  {
    var p := t.at[w];
    var s := t.slab[p].patstr.value;
    assert Step(w, f, 0) == w && NewNode(t, t', w, f, t.slab[p].obj, 0);
    assert WordNode(t, t', w, f, w) && WordNode(t, t', w, f, []);
    if w != [] {
      assert Word(t, Parent(w)) && WordNode(t, t', w, f, Parent(w)) && OldNode(t, t', slot, p, slot.node);
    }
  }

  lemma DecayNewWord(t: Trie, t': Trie, slot: Slot, w: Key, f: Key, u: Key)
    requires Flattened(t, t', slot, w, f) && u != w && OnChain(w, f, u)
    ensures Word(t', u)
  {
    var s, obj := t.slab[t.at[w]].patstr.value, t.slab[t.at[w]].obj;
    var i := |u| - |w| - 1;
    StepOn(w, f, i);
    assert Parent(u) == Step(w, f, i) && OnChain(w, f, Parent(u));
    assert WordNode(t, t', w, f, u) && WordNode(t, t', w, f, Parent(u));
    assert NewNode(t, t', w, f, obj, i) && NewNode(t, t', w, f, obj, i + 1);
  }

  lemma DecayOldWord(t: Trie, t': Trie, slot: Slot, w: Key, f: Key, u: Key)
    requires Flattened(t, t', slot, w, f) && u in t.at && !OnChain(w, f, u)
    ensures Word(t', u)
  {
    var p := t.at[w];
    var s := t.slab[p].patstr.value;
    assert Word(t, u) && Step(w, f, 0) == w && u != w && WordNode(t, t', w, f, u) && OldNode(t, t', slot, p, t.at[u]);
    if u != [] {
      var v := Parent(u);
      assert Word(t, v) && WordNode(t, t', w, f, v) && OldNode(t, t', slot, p, t.at[v]);
      if v == w { OnlyTheTailItself(t, slot, w, u); }
      if OnChain(w, f, v) { OnlyTheTailItself(t, slot, w, v); }
      if w != [] && t.at[v] == slot.node {
        assert Word(t, Parent(w)) && v == Parent(w);
        assert u == v + [u[|u| - 1]] && w == v + [w[|w| - 1]];
      }
    }
  }

  lemma DecayLinked(t: Trie, t': Trie, slot: Slot, w: Key, f: Key, q: nat)
    requires Flattened(t, t', slot, w, f) && q < |t'.slab|
    ensures Linked(t', q)
  {
    if q < |t.slab| { DecayOldNode(t, t', slot, w, f, q); } else { DecayNewNode(t, t', slot, w, f, q - |t.slab|); }
  }

  lemma DecayOldNode(t: Trie, t': Trie, slot: Slot, w: Key, f: Key, q: nat)
    requires Flattened(t, t', slot, w, f) && q < |t.slab|
    ensures Linked(t', q)
  {
    var p := t.at[w];
    var s := t.slab[p].patstr.value;
    assert Linked(t, q) && OldNode(t, t', slot, p, q);
    if q != p && t.path[q].Some? {
      var u := t.path[q].value;
      if OnChain(w, f, u) { OnlyTheTailItself(t, slot, w, u); }
      assert WordNode(t, t', w, f, u);
      forall c | c in t'.slab[q].arr ensures Child(u, c) in t'.at {
        assert WordNode(t, t', w, f, Child(u, c));
        if slot == Entry(q, c) {
          assert Word(t, Parent(w)) && Child(Parent(w), c) == w && Step(w, f, 0) == w;
        }
      }
    }
  }

  lemma DecayNewNode(t: Trie, t': Trie, slot: Slot, w: Key, f: Key, i: nat)
    requires Flattened(t, t', slot, w, f) && i <= |f|
    ensures Linked(t', |t.slab| + i)
  {
    var s := t.slab[t.at[w]].patstr.value;
    assert NewNode(t, t', w, f, t.slab[t.at[w]].obj, i);
    var u := Step(w, f, i);
    assert OnChain(w, f, u) && WordNode(t, t', w, f, u);
    if i < |f| {
      StepOn(w, f, i);
      assert OnChain(w, f, Child(u, f[i])) && WordNode(t, t', w, f, Child(u, f[i]));
    }
  }

  lemma DecayHoused(t: Trie, t': Trie, slot: Slot, w: Key, f: Key, k: Key)
    requires Flattened(t, t', slot, w, f) && k in t'.home
    ensures Housed(t', k)
    ensures if k == w + f then t'.slab[t'.home[k]].obj == t.slab[t.at[w]].obj
            else k in t.home && k != w + t.slab[t.at[w]].patstr.value && t.home[k] < |t.slab|
                 && t'.slab[t'.home[k]].obj == t.slab[t.home[k]].obj
  {
    var p := t.at[w];
    assert Keyed(t, p);
    if k == w + f {
      assert NewNode(t, t', w, f, t.slab[p].obj, |f|);
      assert Step(w, f, |f|) + [] == k;
    } else {
      assert Housed(t, k) && OldNode(t, t', slot, p, t.home[k]);
    }
  }

  lemma DecayKeyed(t: Trie, t': Trie, slot: Slot, w: Key, f: Key, q: nat)
    requires Flattened(t, t', slot, w, f) && q < |t'.slab|
    ensures Keyed(t', q)
  {
    var p := t.at[w];
    assert Keyed(t, p);
    if q < |t.slab| {
      assert Keyed(t, q) && OldNode(t, t', slot, p, q);
      if q != p && w + f in t.home { OnlyKeyBelow(t, slot, w, w + f); }
    } else {
      assert NewNode(t, t', w, f, t.slab[p].obj, q - |t.slab|);
      assert Step(w, f, |f|) + [] == w + f;
    }
  }

  // ----- the objects in the slab

  function Objs(slab: Slab): seq<Obj> { seq(|slab|, i requires 0 <= i < |slab| => slab[i].obj) }

  /** How often each object occurs, NULL aside. */
  function NonNull(objs: seq<Obj>): multiset<Obj> { multiset(objs)[NULL := 0] }

  lemma AddLeafObjects(t: Trie, slot: Slot, w: Key, key: Key, obj: Obj)
    requires slot.Entry? ==> slot.node < |t.slab|
    ensures NonNull(Objs(AddLeaf(t, slot, w, key, obj).slab)) == NonNull(Objs(t.slab)) + NonNull([obj])
  {
    assert Objs(AddLeaf(t, slot, w, key, obj).slab) == Objs(t.slab) + [obj];
  }

  lemma SetHereObjects(t: Trie, w: Key, obj: Obj)
    requires w in t.at && t.at[w] < |t.slab|
    ensures NonNull(Objs(SetHere(t, w, obj).slab)) + NonNull([t.slab[t.at[w]].obj]) == NonNull(Objs(t.slab)) + NonNull([obj])
  {
    var p := t.at[w];
    assert Objs(SetHere(t, w, obj).slab) == Objs(t.slab)[p := obj];
    assert multiset(Objs(t.slab)[p := obj]) == multiset(Objs(t.slab)) - multiset{t.slab[p].obj} + multiset{obj};
  }

  lemma MovedObject(objs: seq<Obj>, p: nat, nulls: seq<Obj>)
    requires p < |objs| && forall i :: 0 <= i < |nulls| ==> nulls[i] == NULL
    ensures NonNull(objs[p := NULL] + nulls + [objs[p]]) == NonNull(objs)
  {
    assert forall x :: x in multiset(nulls) ==> x in nulls;
    assert multiset(objs[p := NULL]) == multiset(objs) - multiset{objs[p]} + multiset{NULL};
  }

  lemma DecayObjs(t: Trie, slot: Slot, w: Key, f: Key, nulls: seq<Obj>)
    requires Detachable(t, slot, w)
    requires |nulls| == |f| && forall i :: 0 <= i < |nulls| ==> nulls[i] == NULL
    ensures Objs(Decay(t, slot, w, f).slab) == Objs(t.slab)[t.at[w] := NULL] + nulls + [t.slab[t.at[w]].obj]
  {
  }

  lemma DecayObjects(t: Trie, slot: Slot, w: Key, f: Key)
    requires Detachable(t, slot, w)
    ensures NonNull(Objs(Decay(t, slot, w, f).slab)) == NonNull(Objs(t.slab))
  {
    var p := t.at[w];
    var nulls := seq(|f|, i => NULL);
    MovedObject(Objs(t.slab), p, nulls);
    DecayObjs(t, slot, w, f, nulls);
  }

  // ----- looking a key up

  /** The text up to the first terminator; -1 where there is none.  NUL (0) ends every text. */
  function Cut(text: Key, term: nat): (n: int)
    ensures -1 <= n <= |text|
    ensures n >= 0 ==> (forall i :: 0 <= i < n ==> text[i] != term) && (if n < |text| then text[n] == term else term == 0)
    ensures n < 0 ==> term != 0 && forall i :: 0 <= i < |text| ==> text[i] != term
  {
    if text == [] then if term == 0 then 0 else -1
    else if text[0] == term then 0
    else var m := Cut(text[1..], term); if m < 0 then -1 else m + 1
  }

  /** The key that a lookup of text asks for. */
  function Asked(nocase: bool, text: Key, term: nat): Option<Key> {
    var n := Cut(text, term);
    if n < 0 then None else Some(FoldKey(nocase, text[..n]))
  }

  /** Keys are folded, and the terminator, folded, is part of none. */
  predicate Askable(t: Trie, nocase: bool, term: nat)
    requires term < 256
  {
    && AllFolded(t, nocase)
    && (term != 0 ==> forall k :: k in t.home ==> Fold(nocase, term) !in k)
  }

  predicate AllFolded(t: Trie, nocase: bool) {
    forall k :: k in t.home ==> Folded(nocase, k)
  }

  lemma PlainIsFolded(k: Key)
    ensures Folded(false, k)
  {
  }

  predicate TermFree(text: Key, n: nat, term: nat)
    requires n <= |text|
  {
    forall i :: 0 <= i < n ==> text[i] != term
  }

  /** The test that lookup makes at one node: the tail, then the terminator. */
  predicate Matches(nocase: bool, tail: Key, text: Key, term: nat) {
    |tail| <= |text| && FoldKey(nocase, text[..|tail|]) == FoldKey(nocase, tail)
    && (if |tail| < |text| then text[|tail|] else 0) == term
  }

  /** The node reached along w answers a lookup of text: w spells the beginning of the text, the
      terminator is not in it, and the node's test succeeds on what follows. */
  predicate FoundAt(t: Trie, nocase: bool, text: Key, term: nat, w: Key) {
    && |w| <= |text| && w == FoldKey(nocase, text[..|w|]) && TermFree(text, |w|, term)
    && Word(t, w) && t.slab[t.at[w]].patstr.Some? && Matches(nocase, t.slab[t.at[w]].patstr.value, text[|w|..], term)
  }

  lemma FoldPrefix(nocase: bool, text: Key, m: nat, n: nat)
    requires m <= n <= |text|
    ensures FoldKey(nocase, text[..n])[..m] == FoldKey(nocase, text[..m])
  {
  }

  /** No two nodes answer one lookup. */
  lemma FoundOnce(t: Trie, nocase: bool, text: Key, term: nat, v: Key, w: Key)
    requires Valid(t) && FoundAt(t, nocase, text, term, v) && FoundAt(t, nocase, text, term, w) && |v| <= |w|
    ensures v == w
  {
    FoldPrefix(nocase, text, |v|, |w|);
    if |v| < |w| {
      assert v < w by { assert w[..|v|] == v; }
      assert text[|v|..][0] == text[|v|] != term;
      NotBelowTail(t, v, w);
    } else {
      assert w[..|w|] == w;
    }
  }

  /** A lookup never answers but with the object of a key that stands at the beginning of the text,
      the case aside where it is folded, with the terminator behind it. */
  lemma FoundIsStored(t: Trie, nocase: bool, text: Key, term: nat, w: Key)
    requires Valid(t) && FoundAt(t, nocase, text, term, w)
    ensures var p := t.at[w];
      var k := KeyAt(t, p);
      && k in t.home && t.home[k] == p && k in Contents(t) && Contents(t)[k] == t.slab[p].obj
      && Matches(nocase, k, text, term)
  {
    var p := t.at[w];
    var tail, k := t.slab[p].patstr.value, KeyAt(t, p);
    assert Keyed(t, p);
    assert text[..|k|] == text[..|w|] + text[|w|..][..|tail|];
    FoldConcat(nocase, text[..|w|], text[|w|..][..|tail|]);
    FoldConcat(nocase, w, tail);
    FoldTwice(nocase, text[..|w|]);
  }

  lemma FoldConcat(nocase: bool, a: Key, b: Key)
    ensures FoldKey(nocase, a + b) == FoldKey(nocase, a) + FoldKey(nocase, b)
  {
  }

  /** A key that stands there is found exactly when the way to its node is spelled in the case asked
      for and does not pass the terminator: which part of the key that is depends on what else has
      been added. */
  lemma StoredIsFound(t: Trie, nocase: bool, text: Key, term: nat, k: Key)
    requires Valid(t) && k in t.home && Matches(nocase, k, text, term)
    ensures Housed(t, k)
    ensures var w := t.path[t.home[k]].value;
      |w| <= |k| && (FoundAt(t, nocase, text, term, w) <==> Folded(nocase, w) && TermFree(text, |w|, term))
  {
    assert Housed(t, k);
    var p := t.home[k];
    var w, tail := t.path[p].value, t.slab[p].patstr.value;
    assert Linked(t, p) && Word(t, w);
    FoldConcat(nocase, w, tail);
    assert text[..|k|] == text[..|w|] + text[|w|..][..|tail|];
    FoldConcat(nocase, text[..|w|], text[|w|..][..|tail|]);
    assert FoldKey(nocase, text[..|w|]) == FoldKey(nocase, w) by {
      assert FoldKey(nocase, k)[..|w|] == FoldKey(nocase, w);
      assert FoldKey(nocase, text[..|k|])[..|w|] == FoldKey(nocase, text[..|w|]);
    }
    assert FoldKey(nocase, text[|w|..][..|tail|]) == FoldKey(nocase, tail) by {
      assert FoldKey(nocase, k)[|w|..] == FoldKey(nocase, tail);
      assert FoldKey(nocase, text[..|k|])[|w|..] == FoldKey(nocase, text[|w|..][..|tail|]);
    }
  }

  /** Over folded keys without the terminator, a lookup is the map's value at the text up to its
      first terminator. */
  lemma AskedIsFound(t: Trie, nocase: bool, text: Key, term: nat)
    requires Valid(t) && term < 256 && Askable(t, nocase, term)
    ensures var k := Asked(nocase, text, term);
      (exists w :: FoundAt(t, nocase, text, term, w)) <==> k.Some? && k.value in t.home
    ensures forall w :: FoundAt(t, nocase, text, term, w) ==> Asked(nocase, text, term) == Some(KeyAt(t, t.at[w]))
  {
    forall w | FoundAt(t, nocase, text, term, w)
      ensures Asked(nocase, text, term) == Some(KeyAt(t, t.at[w])) && KeyAt(t, t.at[w]) in t.home
    {
      FoundIsStored(t, nocase, text, term, w);
      AskedIs(t, nocase, text, term, KeyAt(t, t.at[w]));
    }
    var k := Asked(nocase, text, term);
    if k.Some? && k.value in t.home {
      var n := Cut(text, term);
      FoldTwice(nocase, text[..n]);
      StoredIsFound(t, nocase, text, term, k.value);
      var w := t.path[t.home[k.value]].value;
      PrefixIsFolded(nocase, k.value, |w|);
      assert k.value[..|w|] == w;
      assert FoundAt(t, nocase, text, term, w);
    }
  }

  lemma PrefixIsFolded(nocase: bool, k: Key, n: nat)
    requires n <= |k| && Folded(nocase, k)
    ensures Folded(nocase, k[..n])
  {
    assert FoldKey(nocase, k[..n]) == FoldKey(nocase, k)[..n];
  }

  lemma AskedIs(t: Trie, nocase: bool, text: Key, term: nat, k: Key)
    requires term < 256 && Askable(t, nocase, term) && k in t.home && Matches(nocase, k, text, term)
    ensures Asked(nocase, text, term) == Some(k)
  {
    assert Folded(nocase, k);
    forall i | 0 <= i < |k| ensures text[i] != term {
      assert FoldKey(nocase, text[..|k|])[i] == Fold(nocase, text[i]) == k[i] && k[i] in k;
    }
    assert Cut(text, term) == |k|;
  }

  /** A word's node has an entry for c just when the word continues with c. */
  lemma EntryIsChild(t: Trie, w: Key, c: Byte)
    requires Valid(t) && Word(t, w)
    ensures c in t.slab[t.at[w]].arr <==> Child(w, c) in t.at
    ensures Child(w, c) in t.at ==> Word(t, Child(w, c)) && t.slab[t.at[w]].arr[c] == t.at[Child(w, c)]
  {
    assert Linked(t, t.at[w]);
    if Child(w, c) in t.at { assert Word(t, Child(w, c)) && Parent(Child(w, c)) == w; }
  }

  // ----- the one tail that adding a key may flatten

  predicate TailMet(t: Trie, w: Key, k: Key) {
    w <= k && Word(t, w) && HasTail(t.slab[t.at[w]])
  }

  function TailOf(t: Trie, w: Key): Key
    requires Word(t, w) && HasTail(t.slab[t.at[w]])
  {
    t.slab[t.at[w]].patstr.value
  }

  lemma TailMetOnce(t: Trie, v: Key, w: Key, k: Key)
    requires Attached(t) && TailMet(t, v, k) && TailMet(t, w, k)
    ensures v == w
  {
    if |v| < |w| {
      assert v < w by { assert w[..|v|] == k[..|v|] == v; }
      NotBelowTail(t, v, w);
    } else if |w| < |v| {
      assert w < v by { assert v[..|w|] == k[..|w|] == w; }
      NotBelowTail(t, w, v);
    } else {
      assert v == k[..|v|] == w;
    }
  }

  /** The map before the key is set: the tail met on the way, if any, is respelled. */
  ghost function Softened(t: Trie, nocase: bool, k: Key): map<Key, Obj>
    requires Valid(t)
  {
    if w :| TailMet(t, w, k) then Renamed(t, w, FoldKey(nocase, TailOf(t, w))) else Contents(t)
  }

  lemma SoftenedIs(t: Trie, nocase: bool, w: Key, k: Key)
    requires Valid(t) && TailMet(t, w, k)
    ensures Softened(t, nocase, k) == Renamed(t, w, FoldKey(nocase, TailOf(t, w)))
  {
    forall v | TailMet(t, v, k) ensures v == w { TailMetOnce(t, v, w, k); }
  }

  /** No tail on the way to a place where nothing is, or to a node without one. */
  lemma NoTailAbove(t: Trie, slot: Slot, w: Key, v: Key)
    requires Attached(t) && SlotOf(t, slot, w) && v < w
    ensures !(Word(t, v) && HasTail(t.slab[t.at[v]]))
  {
    if v == Parent(w) {
    } else {
      assert v <= Parent(w) by { assert Parent(w)[..|v|] == w[..|v|] == v; }
      assert Word(t, Parent(w));
      NotBelowTail(t, v, Parent(w));
    }
  }

  lemma NoTailToLeaf(t: Trie, slot: Slot, w: Key, v: Key, k: Key)
    requires Attached(t) && SlotOf(t, slot, w) && w !in t.at && w <= k
    ensures !TailMet(t, v, k)
  {
    if TailMet(t, v, k) {
      if |v| < |w| {
        assert v < w by { assert w[..|v|] == k[..|v|] == v; }
        NoTailAbove(t, slot, w, v);
      } else {
        assert w <= v by { assert v[..|w|] == k[..|w|] == w; }
        NothingBelow(t, w, v);
      }
    }
  }

  lemma NoTailHere(t: Trie, slot: Slot, w: Key, v: Key)
    requires Attached(t) && SlotOf(t, slot, w) && Word(t, w) && !HasTail(t.slab[t.at[w]])
    ensures !TailMet(t, v, w)
  {
    if v <= w {
      if |v| < |w| { NoTailAbove(t, slot, w, v); } else { assert v == w; }
    }
  }

  /** Once the tail is flattened no other is met. */
  lemma NoTailAfter(t: Trie, slot: Slot, w: Key, f: Key, v: Key, k: Key)
    requires Flattens(t, slot, w) && w <= k
    ensures !TailMet(Decay(t, slot, w, f), v, k)
  {
    var t' := Decay(t, slot, w, f);
    DetachableTail(t, slot, w);
    DecayFlattens(t, slot, w, f);
    FlattenedHasNoTail(t, t', slot, w, f, v, k);
  }

  lemma OldTail(t: Trie, t': Trie, slot: Slot, w: Key, f: Key, v: Key)
    requires Flattened(t, t', slot, w, f) && !OnChain(w, f, v) && Word(t', v) && HasTail(t'.slab[t'.at[v]])
    ensures Word(t, v) && HasTail(t.slab[t.at[v]]) && v != w
  {
    assert WordNode(t, t', w, f, v) && Step(w, f, 0) == w;
    assert Word(t, v);
    assert OldNode(t, t', slot, t.at[w], t.at[v]);
  }

  lemma ChainHasNoTail(t: Trie, t': Trie, slot: Slot, w: Key, f: Key, v: Key)
    requires Flattened(t, t', slot, w, f) && OnChain(w, f, v)
    ensures v in t'.at && t'.at[v] < |t'.slab| && !HasTail(t'.slab[t'.at[v]])
  {
    assert WordNode(t, t', w, f, v) && NewNode(t, t', w, f, t.slab[t.at[w]].obj, |v| - |w|);
  }

  lemma FlattenedHasNoTail(t: Trie, t': Trie, slot: Slot, w: Key, f: Key, v: Key, k: Key)
    requires Flattened(t, t', slot, w, f) && w <= k
    ensures !TailMet(t', v, k)
  {
    var p := t.at[w];
    assert WordNode(t, t', w, f, v) && Step(w, f, 0) == w;
    if TailMet(t', v, k) {
      if OnChain(w, f, v) { ChainHasNoTail(t, t', slot, w, f, v); }
      else {
        OldTail(t, t', slot, w, f, v);
        TailMetOnce(t, v, w, k);
      }
    }
  }

  lemma MixedTail(nocase: bool, w: Key, s: Key, k: Key)
    requires Folded(nocase, k) && !Folded(nocase, s)
    ensures w + s != k
  {
    FoldConcat(nocase, w, s);
    assert FoldKey(nocase, w + s)[|w|..] == FoldKey(nocase, s) && (w + s)[|w|..] == s;
  }

  /** Adding a key leaves all others alone exactly when the tail met on its way, if any, is spelled
      in the case in which keys are added. */
  lemma RefinesMapExactly(t: Trie, nocase: bool, k: Key, obj: Obj)
    requires Valid(t) && Folded(nocase, k)
    ensures Softened(t, nocase, k)[k := obj] == Contents(t)[k := obj]
            <==> forall w :: TailMet(t, w, k) ==> Folded(nocase, TailOf(t, w))
  {
    if w :| TailMet(t, w, k) {
      var s := TailOf(t, w);
      SoftenedIs(t, nocase, w, k);
      forall v | TailMet(t, v, k) ensures v == w { TailMetOnce(t, v, w, k); }
      assert Keyed(t, t.at[w]);
      if Folded(nocase, s) {
        RenamedToItself(t, w);
      } else {
        var f := FoldKey(nocase, s);
        assert w + s != w + f by { assert (w + s)[|w|..] == s && (w + f)[|w|..] == f; }
        MixedTail(nocase, w, s, k);
        assert w + s in Contents(t) && w + s !in Softened(t, nocase, k)[k := obj];
      }
    }
  }

  lemma SuffixIsFolded(nocase: bool, k: Key, n: nat)
    requires n <= |k| && Folded(nocase, k)
    ensures Folded(nocase, k[n..])
  {
    assert FoldKey(nocase, k[n..]) == FoldKey(nocase, k)[n..];
  }

  /** Where all keys are in that case, so are the tails. */
  lemma FoldedTails(t: Trie, nocase: bool, w: Key)
    requires Valid(t) && AllFolded(t, nocase) && Word(t, w) && HasTail(t.slab[t.at[w]])
    ensures Folded(nocase, TailOf(t, w))
  {
    assert Keyed(t, t.at[w]);
    var k := KeyAt(t, t.at[w]);
    SuffixIsFolded(nocase, k, |w|);
    assert k[|w|..] == TailOf(t, w);
  }

  lemma SoftenedFolded(t: Trie, nocase: bool, k: Key)
    requires Valid(t) && AllFolded(t, nocase)
    ensures Softened(t, nocase, k) == Contents(t)
  {
    if w :| TailMet(t, w, k) {
      SoftenedIs(t, nocase, w, k);
      FoldedTails(t, nocase, w);
      RenamedToItself(t, w);
    }
  }

  /** It can happen: with "A" added plainly, adding "b" without case leaves "a" in its place. */
  lemma MixedCaseRenames(x: Obj)
    ensures var t := AddLeaf(EMPTY, Root, [], ['A' as int], x);
      Valid(t) && Contents(t) == map[['A' as int] := x] && Softened(t, true, ['b' as int]) == map[['a' as int] := x]
  {
    AddLeafIsInsert(EMPTY, Root, [], ['A' as int], x);
    var t := AddLeaf(EMPTY, Root, [], ['A' as int], x);
    assert [] + ['A' as int] == ['A' as int] && Contents(EMPTY) == map[];
    assert Word(t, []) && TailMet(t, [], ['b' as int]);
    SoftenedIs(t, true, [], ['b' as int]);
    assert FoldKey(true, ['A' as int]) == ['a' as int];
    assert [] + ['a' as int] == ['a' as int];
  }
}

/** Where the nodes of a trie are: in a slab, whose allocator hands them out and walks over them. */
module NodeStores {
  import opened Slabs

  /** The trie's positions, in the order of allocation, and the addresses they stand for. */
  class NodeStore {
    const sl: Slalloc
    var addresses: seq<nat>

    ghost predicate Valid() reads this, sl {
      sl.Valid() && sl.g.Paged() && Distinct(addresses) && forall o :: sl.IsLive(o) <==> o in addresses
    }

    constructor (sl: Slalloc)
      requires sl.Valid() && sl.g.Paged() && forall o :: !sl.IsLive(o)
      ensures Valid() && this.sl == sl && addresses == []
    {
      this.sl, addresses := sl, [];
    }

    /** Holds n nodes. */
    ghost predicate Holds(n: nat) reads this, sl { Valid() && |addresses| == n }

    /** Some place where a block can be mapped; which one is up to mmap, and nothing depends on it. */
    method Unmapped() returns (base: nat)
      ensures sl.Mappable(base)
    {
      base := 1;
      var size := sl.g.BlockBytes();
      for b := 0 to |sl.pgarray|
        invariant base > 0 && forall c :: 0 <= c < b ==> sl.pgarray[c] + size <= base
      {
        var end := sl.pgarray[b] + size;
        if end > base { base := end; }
      }
    }

    /** Another node, all zero, that shares no byte with the earlier ones; what live objects hold
        stays. */
    method New() returns (obj: nat)
      requires Valid()
      modifies this, sl
      ensures Valid() && addresses == old(addresses) + [obj]
      ensures forall o :: o in old(addresses) ==> o + sl.g.objsize <= obj || obj + sl.g.objsize <= o
      ensures forall a :: Within(a, obj, sl.g.objsize) ==> a in sl.mem && sl.mem[a] == 0
      ensures Kept(sl.g, old(sl.usemaps), old(sl.pgarray), old(sl.mem), sl.mem)
    {
      hide Live, MapsOk, Listed, BlocksApart, Clean, Kept;
      ghost var was := addresses;
      var base := Unmapped();
      obj := sl.New(base, All);
      assert forall o :: o in was ==> sl.IsLive(o) && o != obj;
      addresses := addresses + [obj];
      assert forall o :: o in addresses <==> o in was || o == obj;
      forall o | o in was ensures o + sl.g.objsize <= obj || obj + sl.g.objsize <= o {
        sl.LiveObjectsApart(o, obj);
      }
    }

    /** The walk of slalloc_foreach comes past every node once. */
    method Walk() returns (order: seq<nat>)
      requires Valid()
      ensures multiset(order) == multiset(Positions(|addresses|))
    {
      var ret, visited := sl.Foreach({});
      order := PositionsOf(addresses, visited);
      WalkedOnce(addresses, visited, order);
    }
  }

  function Positions(n: nat): seq<nat> { seq(n, i requires 0 <= i < n => i) }

  predicate Distinct(s: seq<nat>) { forall i, j :: 0 <= i < j < |s| ==> s[i] != s[j] }

  function PositionOf(s: seq<nat>, o: nat): (p: nat)
    requires o in s
    ensures p < |s| && s[p] == o
  {
    if s[0] == o then 0 else PositionOf(s[1..], o) + 1
  }

  function PositionsOf(s: seq<nat>, visited: seq<nat>): (order: seq<nat>)
    requires forall o :: o in visited ==> o in s
    ensures |order| == |visited| && forall i :: 0 <= i < |order| ==> order[i] < |s| && s[order[i]] == visited[i]
  {
    seq(|visited|, i requires 0 <= i < |visited| => PositionOf(s, visited[i]))
  }

  lemma {:induction false} CountOf(s: seq<nat>, x: nat)
    requires Distinct(s)
    ensures multiset(s)[x] == if x in s then 1 else 0
    decreases |s|
  {
    if s != [] {
      var front, l := s[..|s| - 1], s[|s| - 1];
      assert s == front + [l];
      CountOf(front, x);
    }
  }

  lemma SameElements(s: seq<nat>, t: seq<nat>)
    requires Distinct(s) && Distinct(t) && forall x :: x in s <==> x in t
    ensures multiset(s) == multiset(t)
  {
    forall x: nat ensures multiset(s)[x] == multiset(t)[x] { CountOf(s, x); CountOf(t, x); }
  }

  lemma WalkedOnce(addresses: seq<nat>, visited: seq<nat>, order: seq<nat>)
    requires Distinct(addresses) && Distinct(visited) && (forall o :: o in visited <==> o in addresses)
    requires |order| == |visited| && forall i :: 0 <= i < |visited| ==> order[i] < |addresses| && addresses[order[i]] == visited[i]
    ensures multiset(order) == multiset(Positions(|addresses|))
  {
    forall p | 0 <= p < |addresses| ensures p in order {
      assert addresses[p] in visited;
      var i :| 0 <= i < |visited| && visited[i] == addresses[p];
      assert order[i] == p;
    }
    forall p | p in Positions(|addresses|) ensures p in order {}
    forall i | 0 <= i < |order| ensures order[i] in Positions(|addresses|) {
      assert Positions(|addresses|)[order[i]] == order[i];
    }
    SameElements(order, Positions(|addresses|));
  }
}

/** The pattern trie of libdank/objects/lrupat.h. */
module LruPats {
  import opened LpatNodes
  import opened NodeStores
  import opened Options
  import Slabs

  class LruPat {
    var slab: Slab
    var root: Option<nat>
    const watches: bool
    const store: NodeStore
    /** Every object handed to nwatchcb so far, in order. */
    var watched: seq<Obj>
    ghost var at: map<Key, nat>
    ghost var path: seq<Option<Key>>
    ghost var home: map<Key, nat>
    /** Every non-NULL object ever added. */
    ghost var added: multiset<Obj>

    ghost function View(): Trie reads this { Trie(slab, root, at, path, home) }

    /** The non-NULL objects handed to the callback and those still in nodes. */
    ghost function Accounted(): multiset<Obj> reads this { NonNull(watched) + NonNull(Objs(slab)) }

    /** The node at each position has an address of its own in the slab, and nothing else has. */
    ghost predicate Stored() reads this, store, store.sl { store.Holds(|slab|) }

    ghost predicate Valid() reads this, store, store.sl {
      Stored() && LpatNodes.Valid(View()) && if watches then Accounted() == added else watched == []
    }

    ghost function Contents(): map<Key, Obj>
      reads this
      requires LpatNodes.Valid(View())
    {
      LpatNodes.Contents(View())
    }

    constructor (watches: bool, store: NodeStore)
      requires store.Holds(0)
      ensures Valid() && Contents() == map[] && added == multiset{} && this.watches == watches && watched == []
      ensures this.store == store
    {
      hide NodeStore.Holds;
      this.watches, this.store := watches, store;
      slab, root, watched := [], None, [];
      at, path, home, added := map[], [], map[], multiset{};
    }

    /** slalloc_lpatnode_new */
    method NewNode() returns (p: nat)
      requires Stored()
      modifies this`slab, store, store.sl
      ensures Stored() && slab == old(slab) + [BLANK] && p == |old(slab)|
    {
      p := |slab|;
      var _ := store.New();
      slab := slab + [BLANK];
    }

    method ChainNew(nocase: bool, key: Key, obj: Obj) returns (p: nat)
      requires Stored()
      modifies this`slab, store, store.sl
      ensures Stored() && slab == old(slab) + [LpatNode(map[], obj, Some(FoldKey(nocase, key)))] && p == |old(slab)|
    {
      hide NodeStore.Holds;
      p := NewNode();
      slab := slab[p := slab[p].(patstr := Some(FoldKey(nocase, key)), obj := obj)];
    }

    /** *lps = q. */
    method Point(slot: Slot, q: nat)
      requires slot.Entry? ==> slot.node < |slab|
      modifies this`slab, this`root
      ensures slab == Store(old(slab), slot, q) && root == StoreRoot(old(root), slot, q)
    {
      match slot
      case Root => root := Some(q);
      case Entry(p, c) => slab := slab[p := slab[p].(arr := slab[p].arr[c := q])];
    }

    method AddLeaf(nocase: bool, slot: Slot, key: Key, obj: Obj, ghost w: Key)
      requires Stored() && LpatNodes.Valid(View()) && SlotOf(View(), slot, w) && w !in at
      modifies this, store, store.sl
      ensures Stored() && LpatNodes.Valid(View()) && Contents() == old(Contents())[w + FoldKey(nocase, key) := obj]
      ensures w + FoldKey(nocase, key) !in old(home)
      ensures NonNull(Objs(slab)) == old(NonNull(Objs(slab))) + NonNull([obj])
      ensures watched == old(watched) && added == old(added)
    {
      hide NodeStore.Holds;
      ghost var t := View();
      AddLeafIsInsert(t, slot, w, FoldKey(nocase, key), obj);
      AddLeafObjects(t, slot, w, FoldKey(nocase, key), obj);
      var q := ChainNew(nocase, key, obj);
      Point(slot, q);
      ghost var t' := LpatNodes.AddLeaf(t, slot, w, FoldKey(nocase, key), obj);
      at, path, home := t'.at, t'.path, t'.home;
      assert View() == t';
    }

    /** The chain that has been built for the first i characters of the tail. */
    static ghost function Building(n: nat, s: Key, i: nat): (r: Slab)
      requires i <= |s|
      ensures |r| == i + 1
    {
      seq(i + 1, j requires 0 <= j <= i => if j < i then LpatNode(map[s[j] := n + j + 1], NULL, None) else BLANK)
    }

    static lemma BuildingGrows(n: nat, s: Key, i: nat)
      requires i < |s|
      ensures (Building(n, s, i) + [BLANK])[i := LpatNode(map[s[i] := n + i + 1], NULL, None)] == Building(n, s, i + 1)
    {
    }

    static lemma BuildingIsChain(n: nat, s: Key, obj: Obj)
      ensures Building(n, s, |s|)[|s| := LpatNode(map[], obj, Some([]))] == Chain(n, s, obj)
    {
    }

    method BuildChain(nocase: bool, suffix: Key, obj: Obj) returns (head: nat)
      requires Stored()
      modifies this`slab, store, store.sl
      ensures Stored() && slab == old(slab) + Chain(|old(slab)|, FoldKey(nocase, suffix), obj) && head == |old(slab)|
    {
      hide NodeStore.Holds;
      ghost var f := FoldKey(nocase, suffix);
      head := NewNode();
      assert [BLANK] == Building(head, f, 0);
      var last, i := head, 0;
      while i < |suffix|
        invariant 0 <= i <= |suffix| && last == head + i && head == |old(slab)|
        invariant Stored() && slab == old(slab) + Building(head, f, i)
      {
        BuildingGrows(head, f, i);
        var q := NewNode();
        slab := slab[last := slab[last].(arr := slab[last].arr[Fold(nocase, suffix[i]) := q])];
        last, i := q, i + 1;
        assert slab == old(slab) + Building(head, f, i);
      }
      BuildingIsChain(head, f, obj);
      slab := slab[last := slab[last].(patstr := Some(FoldKey(nocase, suffix[i..])), obj := obj)];
      assert slab == old(slab) + Chain(head, f, obj);
    }

    method DecayTail(nocase: bool, slot: Slot, ghost w: Key)
      requires Stored() && Detachable(View(), slot, w) && Load(slab, root, slot) == Some(at[w])
      modifies this, store, store.sl
      ensures Stored() && View() == Decay(old(View()), slot, w, FoldKey(nocase, old(slab)[old(at)[w]].patstr.value))
      ensures watched == old(watched) && added == old(added)
    {
      hide NodeStore.Holds, Attached, Homed, Word, Linked, Chain, FoldKey, Decay;
      ghost var t := View();
      var p := Load(slab, root, slot).value;
      ghost var f := FoldKey(nocase, slab[p].patstr.value);
      var n := BuildChain(nocase, slab[p].patstr.value, slab[p].obj);
      slab := slab[p := slab[p].(obj := NULL)];
      slab := slab[p := slab[p].(patstr := None)];
      assert slab == t.slab[p := t.slab[p].(obj := NULL, patstr := None)] + Chain(n, f, t.slab[p].obj);
      Point(slot, n);
      DecayIs(t, slot, w, f);
      ghost var t' := Decay(t, slot, w, f);
      at, path, home := t'.at, t'.path, t'.home;
    }

    static lemma DecayIs(t: Trie, slot: Slot, w: Key, f: Key)
      requires Detachable(t, slot, w)
      ensures var n, p := |t.slab|, t.at[w];
        && Decay(t, slot, w, f).slab == Store(t.slab[p := t.slab[p].(obj := NULL, patstr := None)] + Chain(n, f, t.slab[p].obj), slot, n)
        && Decay(t, slot, w, f).root == StoreRoot(t.root, slot, n)
    {
    }

    /** A node's tail, if it has one, is flattened; k is the key on whose way it lies. */
    method Untail(nocase: bool, slot: Slot, ghost w: Key, ghost k: Key)
      requires Stored() && LpatNodes.Valid(View()) && SlotOf(View(), slot, w) && w in at && w <= k
      modifies this, store, store.sl
      ensures Stored() && LpatNodes.Valid(View()) && Softened(View(), nocase, k) == Softened(old(View()), nocase, k)
      ensures SlotOf(View(), slot, w) && Word(View(), w) && !HasTail(slab[at[w]])
      ensures NonNull(Objs(slab)) == old(NonNull(Objs(slab)))
      ensures watched == old(watched) && added == old(added)
    {
      hide NodeStore.Holds;
      ghost var t := View();
      LoadIsAttached(t, slot, w);
      assert Word(t, w);
      var p := Load(slab, root, slot).value;
      if slab[p].patstr.Some? {
        if slab[p].patstr.value != [] {
          ghost var f := FoldKey(nocase, slab[p].patstr.value);
          UntailSoftens(t, nocase, slot, w, k);
          DecayTail(nocase, slot, w);
        }
      }
    }

    static lemma UntailSoftens(t: Trie, nocase: bool, slot: Slot, w: Key, k: Key)
      requires Flattens(t, slot, w) && w <= k
      ensures var t' := Decay(t, slot, w, FoldKey(nocase, TailOf(t, w)));
        && Detachable(t, slot, w) && LpatNodes.Valid(t') && Softened(t', nocase, k) == Softened(t, nocase, k)
        && SlotOf(t', slot, w) && Word(t', w) && !HasTail(t'.slab[t'.at[w]])
        && NonNull(Objs(t'.slab)) == NonNull(Objs(t.slab))
    {
      var f := FoldKey(nocase, TailOf(t, w));
      var t' := Decay(t, slot, w, f);
      DetachableTail(t, slot, w);
      DecayRenames(t, slot, w, f);
      DecayObjects(t, slot, w, f);
      SoftenedIs(t, nocase, w, k);
      forall v ensures !TailMet(t', v, k) { NoTailAfter(t, slot, w, f, v, k); }
    }

    static lemma FoldFirst(nocase: bool, key: Key)
      requires key != []
      ensures FoldKey(nocase, key) == [Fold(nocase, key[0])] + FoldKey(nocase, key[1..])
    {
    }

    static lemma Assoc(a: Key, b: Key, c: Key)
      ensures (a + b) + c == a + (b + c)
    {
    }

    static lemma FoldSplits(nocase: bool, w: Key, key: Key)
      requires key != []
      ensures Child(w, Fold(nocase, key[0])) + FoldKey(nocase, key[1..]) == w + FoldKey(nocase, key)
    {
      FoldFirst(nocase, key);
      Assoc(w, [Fold(nocase, key[0])], FoldKey(nocase, key[1..]));
    }

    /** Before a key is set at a node: the old object goes to the callback, or the tail is flattened. */
    method Vacate(nocase: bool, slot: Slot, ghost w: Key)
      requires Stored() && LpatNodes.Valid(View()) && SlotOf(View(), slot, w) && w in at
      modifies this, store, store.sl
      ensures Stored() && LpatNodes.Valid(View()) && Contents() == Softened(old(View()), nocase, w)
      ensures SlotOf(View(), slot, w) && Word(View(), w) && !HasTail(slab[at[w]])
      ensures NonNull(Objs(slab)) == old(NonNull(Objs(slab)))
      ensures watched == old(watched) + (if watches && w in Contents() then [Contents()[w]] else [])
      ensures slab[at[w]].obj == if w in Contents() then Contents()[w] else NULL
      ensures added == old(added)
    {
      hide NodeStore.Holds;
      LoadIsAttached(View(), slot, w);
      assert Word(View(), w);
      var p := Load(slab, root, slot).value;
      if slab[p].patstr == Some([]) {
        OwnHome(View(), w);
        SoftenedHere(View(), nocase, slot, w);
        if watches { watched := watched + [slab[p].obj]; }
      } else {
        VacateTail(nocase, slot, w);
      }
    }

    method VacateTail(nocase: bool, slot: Slot, ghost w: Key)
      requires Stored() && LpatNodes.Valid(View()) && SlotOf(View(), slot, w) && Word(View(), w) && slab[at[w]].patstr != Some([])
      modifies this, store, store.sl
      ensures Stored() && LpatNodes.Valid(View()) && Contents() == Softened(old(View()), nocase, w)
      ensures SlotOf(View(), slot, w) && Word(View(), w) && !HasTail(slab[at[w]])
      ensures NonNull(Objs(slab)) == old(NonNull(Objs(slab)))
      ensures w !in Contents() && slab[at[w]].obj == NULL
      ensures watched == old(watched) && added == old(added)
    {
      hide NodeStore.Holds;
      ghost var t := View();
      LoadIsAttached(t, slot, w);
      var p := Load(slab, root, slot).value;
      if slab[p].patstr.Some? {
        UntailSoftens(t, nocase, slot, w, w);
        DecayLeavesNoKey(t, slot, w, FoldKey(nocase, TailOf(t, w)));
        DecayTail(nocase, slot, w);
      }
      assert Linked(View(), at[w]);
      OwnHome(View(), w);
      SoftenedHere(View(), nocase, slot, w);
    }

    static lemma DecayLeavesNoKey(t: Trie, slot: Slot, w: Key, f: Key)
      requires Flattens(t, slot, w) && f != []
      ensures var t' := Decay(t, slot, w, f);
        w in t'.at && t'.at[w] < |t'.slab| && t'.slab[t'.at[w]].patstr == None
    {
      DecayFlattens(t, slot, w, f);
      var t' := Decay(t, slot, w, f);
      assert WordNode(t, t', w, f, w) && Step(w, f, 0) == w && LpatNodes.NewNode(t, t', w, f, t.slab[t.at[w]].obj, 0);
    }

    static lemma SoftenedHere(t: Trie, nocase: bool, slot: Slot, w: Key)
      requires LpatNodes.Valid(t) && SlotOf(t, slot, w) && Word(t, w) && !HasTail(t.slab[t.at[w]])
      ensures Softened(t, nocase, w) == LpatNodes.Contents(t)
    {
      forall v ensures !TailMet(t, v, w) { NoTailHere(t, slot, w, v); }
    }

    static lemma SoftenedAtLeaf(t: Trie, nocase: bool, slot: Slot, w: Key, k: Key)
      requires LpatNodes.Valid(t) && SlotOf(t, slot, w) && w !in t.at && w <= k
      ensures Softened(t, nocase, k) == LpatNodes.Contents(t)
    {
      forall v ensures !TailMet(t, v, k) { NoTailToLeaf(t, slot, w, v, k); }
    }

    /** The key ends at a node that is there already. */
    method SetKey(nocase: bool, slot: Slot, obj: Obj, ghost w: Key)
      requires Stored() && LpatNodes.Valid(View()) && SlotOf(View(), slot, w) && w in at
      modifies this, store, store.sl
      ensures Stored() && LpatNodes.Valid(View()) && Contents() == Softened(old(View()), nocase, w)[w := obj]
      ensures var m := Softened(old(View()), nocase, w);
        && watched == old(watched) + (if watches && w in m then [m[w]] else [])
        && NonNull(Objs(slab)) + NonNull(if w in m then [m[w]] else []) == old(NonNull(Objs(slab))) + NonNull([obj])
      ensures added == old(added)
    {
      hide NodeStore.Holds, Softened;
      Vacate(nocase, slot, w);
      ghost var u := View();
      LoadIsAttached(u, slot, w);
      SetHereIsUpdate(u, w, obj);
      SetHereObjects(u, w, obj);
      var p := Load(slab, root, slot).value;
      slab := slab[p := slab[p].(patstr := Some([]), obj := obj)];
      home := home[w := p];
      assert View() == SetHere(u, w, obj);
    }

    static lemma Handed(watched: seq<Obj>, more: seq<Obj>)
      ensures NonNull(watched + more) == NonNull(watched) + NonNull(more)
    {
    }

    /** What is handed over is no longer in the nodes. */
    static lemma Settled(watched: seq<Obj>, more: seq<Obj>, objs: seq<Obj>, objs': seq<Obj>, obj: Obj)
      requires NonNull(objs') + NonNull(more) == NonNull(objs) + NonNull([obj])
      ensures NonNull(watched + more) + NonNull(objs') == NonNull(watched) + NonNull(objs) + NonNull([obj])
    {
      Handed(watched, more);
      hide NonNull;
      assert NonNull(watched) + NonNull(more) + NonNull(objs') == NonNull(watched) + (NonNull(objs') + NonNull(more));
    }

    method AddHelper(nocase: bool, slot: Slot, key: Key, obj: Obj, ghost w: Key)
      requires Stored() && LpatNodes.Valid(View()) && SlotOf(View(), slot, w)
      modifies this, store, store.sl
      ensures Stored() && LpatNodes.Valid(View())
      ensures var k := w + FoldKey(nocase, key);
        var m := Softened(old(View()), nocase, k);
        && Contents() == m[k := obj]
        && watched == old(watched) + (if watches && k in m then [m[k]] else [])
      ensures watches ==> Accounted() == old(Accounted()) + NonNull([obj])
      ensures added == old(added)
      decreases |key|
    {
      hide NodeStore.Holds, Softened, Attached, Homed, NonNull;
      LoadIsAttached(View(), slot, w);
      ghost var k := w + FoldKey(nocase, key);
      var lps := Load(slab, root, slot);
      if lps.None? {
        SoftenedAtLeaf(View(), nocase, slot, w, k);
        AddLeaf(nocase, slot, key, obj, w);
      } else if key != [] {
        Untail(nocase, slot, w, k);
        LoadIsAttached(View(), slot, w);
        FoldSplits(nocase, w, key);
        var c := Fold(nocase, key[0]);
        AddHelper(nocase, Entry(Load(slab, root, slot).value, c), key[1..], obj, Child(w, c));
      } else {
        assert k == w;
        ghost var m := Softened(View(), nocase, w);
        SetKey(nocase, slot, obj, w);
        if watches { Settled(old(watched), if w in m then [m[w]] else [], old(Objs(slab)), Objs(slab), obj); }
      }
    }

    /** add_lrupat, and add_lrupat_nocase where nocase holds.  The map that the key is added to is the
        one stored, but for a tail on the way that nocase respells; over keys all in lower case, and
        without nocase, there is no such change. */
    method Add(nocase: bool, key: Key, obj: Obj)
      requires Valid()
      modifies this, store, store.sl
      ensures Valid() && added == old(added) + NonNull([obj])
      ensures var k := FoldKey(nocase, key);
        var m := Softened(old(View()), nocase, k);
        && Contents() == m[k := obj]
        && watched == old(watched) + (if watches && k in m then [m[k]] else [])
      ensures !nocase || old(AllFolded(View(), nocase)) ==>
        var m, k := old(Contents()), FoldKey(nocase, key);
        && Contents() == m[k := obj] && AllFolded(View(), nocase)
        && watched == old(watched) + (if watches && k in m then [m[k]] else [])
    {
      hide NodeStore.Holds, Softened, Attached, Homed, Folded, AllFolded, LpatNodes.Contents;
      ghost var t := View();
      assert [] + FoldKey(nocase, key) == FoldKey(nocase, key);
      FoldTwice(nocase, key);
      if !nocase { PlainTrie(t); }
      if AllFolded(t, nocase) { SoftenedFolded(t, nocase, FoldKey(nocase, key)); }
      AddHelper(nocase, Root, key, obj, []);
      added := added + NonNull([obj]);
      if AllFolded(t, nocase) { FoldedAfter(t, View(), nocase, FoldKey(nocase, key), obj); }
    }

    static lemma NothingStored(t: Trie, nocase: bool)
      requires LpatNodes.Valid(t) && LpatNodes.Contents(t) == map[]
      ensures AllFolded(t, nocase)
    {
      assert LpatNodes.Contents(t).Keys == t.home.Keys;
    }

    static lemma PlainTrie(t: Trie)
      ensures AllFolded(t, false)
    {
      forall k ensures Folded(false, k) { PlainIsFolded(k); }
    }

    static lemma FoldedAfter(t: Trie, t': Trie, nocase: bool, k: Key, obj: Obj)
      requires LpatNodes.Valid(t) && LpatNodes.Valid(t') && AllFolded(t, nocase) && Folded(nocase, k)
      requires LpatNodes.Contents(t') == LpatNodes.Contents(t)[k := obj]
      ensures AllFolded(t', nocase)
    {
      hide Attached, Homed, Folded;
      assert LpatNodes.Contents(t').Keys == t'.home.Keys && LpatNodes.Contents(t).Keys == t.home.Keys;
    }

    /** lps is where the first i characters of the text lead. */
    method LookupHelper(nocase: bool, lps: Option<nat>, text: Key, i: nat, term: nat) returns (r: Option<Obj>, ghost found: Key)
      requires LpatNodes.Valid(View()) && i <= |text| && TermFree(text, i, term)
      requires var w := FoldKey(nocase, text[..i]); lps == if w in at then Some(at[w]) else None
      requires forall v :: FoundAt(View(), nocase, text, term, v) ==> i <= |v|
      ensures r.None? ==> forall v :: !FoundAt(View(), nocase, text, term, v)
      ensures r.Some? ==> FoundAt(View(), nocase, text, term, found) && r.value == slab[at[found]].obj
      decreases |text| - i
    {
      hide Homed, Linked, Matches, FoldKey;
      ghost var t, w := View(), FoldKey(nocase, text[..i]);
      if lps.None? {
        forall v ensures !FoundAt(t, nocase, text, term, v) { NotFoundBelow(t, nocase, text, term, i, v); }
        return None, w;
      }
      var p := lps.value;
      assert Word(t, w);
      if slab[p].patstr.Some? && Matches(nocase, slab[p].patstr.value, text[i..], term) {
        assert FoundAt(t, nocase, text, term, w);
        return Some(slab[p].obj), w;
      }
      forall v | FoundAt(t, nocase, text, term, v) ensures i < |v| { assert |v| == i ==> v == w; }
      if i < |text| && text[i] != term {
        var c := Fold(nocase, text[i]);
        EntryIsChild(t, w, c);
        FoldOneMore(nocase, text, i);
        r, found := LookupHelper(nocase, if c in slab[p].arr then Some(slab[p].arr[c]) else None, text, i + 1, term);
      } else {
        return None, w;
      }
    }

    static lemma FoldOneMore(nocase: bool, text: Key, i: nat)
      requires i < |text|
      ensures FoldKey(nocase, text[..i + 1]) == Child(FoldKey(nocase, text[..i]), Fold(nocase, text[i]))
    {
    }

    static lemma NotFoundBelow(t: Trie, nocase: bool, text: Key, term: nat, i: nat, v: Key)
      requires LpatNodes.Valid(t) && i <= |text| && FoldKey(nocase, text[..i]) !in t.at
      requires FoundAt(t, nocase, text, term, v) ==> i <= |v|
      ensures !FoundAt(t, nocase, text, term, v)
    {
      if FoundAt(t, nocase, text, term, v) {
        FoldPrefix(nocase, text, i, |v|);
        NothingBelow(t, FoldKey(nocase, text[..i]), v);
      }
    }

    /** lookup_lrupat(_nocase) with term 0, lookup_lrupat_term(_nocase) with any other: the object of
        the one node that answers.  Over keys in the case asked for and without the terminator that
        is the map's value at the text up to its first terminator. */
    method Lookup(nocase: bool, text: Key, term: nat) returns (r: Option<Obj>)
      requires Valid() && term < 256
      ensures r.None? <==> forall w :: !FoundAt(View(), nocase, text, term, w)
      ensures forall w :: FoundAt(View(), nocase, text, term, w) ==> r == Some(slab[at[w]].obj)
      ensures Askable(View(), nocase, term) ==>
        r == match Asked(nocase, text, term)
             case None => None
             case Some(k) => if k in Contents() then Some(Contents()[k]) else None
    {
      hide FoundAt, Askable;
      ghost var t := View();
      assert text[..0] == [] && FoldKey(nocase, text[..0]) == [];
      ghost var w;
      r, w := LookupHelper(nocase, root, text, 0, term);
      assert View() == t;
      assert r.None? ==> forall v :: !FoundAt(t, nocase, text, term, v);
      forall v | r.Some? && FoundAt(t, nocase, text, term, v) ensures v == w {
        if |v| <= |w| { FoundOnce(t, nocase, text, term, v, w); } else { FoundOnce(t, nocase, text, term, w, v); }
      }
      if Askable(t, nocase, term) { LookupOfMap(t, nocase, text, term, r, w); }
    }

    static lemma LookupOfMap(t: Trie, nocase: bool, text: Key, term: nat, r: Option<Obj>, w: Key)
      requires LpatNodes.Valid(t) && term < 256 && Askable(t, nocase, term)
      requires r.None? ==> forall w :: !FoundAt(t, nocase, text, term, w)
      requires r.Some? ==> FoundAt(t, nocase, text, term, w) && r.value == t.slab[t.at[w]].obj
      ensures r == match Asked(nocase, text, term)
        case None => None
        case Some(k) => if k in LpatNodes.Contents(t) then Some(LpatNodes.Contents(t)[k]) else None
    {
      AskedIsFound(t, nocase, text, term);
      if r.Some? {
        FoundIsStored(t, nocase, text, term, w);
      }
    }

    /** destroy_lrupat: every node in the slab goes to the callback, those cut off long ago too, in
        the order in which the slab allocator comes past them. */
    method Destroy()
      requires Valid()
      modifies this
      ensures watches ==> NonNull(watched) == old(added)
      ensures !watches ==> watched == []
      ensures slab == [] && root == None
    {
      var order := store.Walk();
      HandOver(order);
      slab, root := [], None;
    }

    method HandOver(order: seq<nat>)
      requires multiset(order) == multiset(Positions(|slab|))
      modifies this`watched, this`slab
      ensures if watches then NonNull(watched) == old(NonNull(watched) + NonNull(Objs(slab))) else watched == old(watched)
    {
      ghost var objs := Objs(slab);
      OrderFits(order, |slab|);
      Permuted(objs, order);
      hide Positions;
      var z := 0;
      ghost var handed: seq<Obj> := [];
      while z < |order|
        invariant 0 <= z <= |order| && |slab| == |objs| && Objs(slab) == objs
        invariant handed == Picked(objs, order[..z]) && watched == old(watched) + (if watches then handed else [])
      {
        var p := order[z];
        if watches { watched := watched + [slab[p].obj]; }
        handed := handed + [slab[p].obj];
        slab := slab[p := slab[p].(patstr := None)];
        assert order[..z + 1] == order[..z] + [p];
        z := z + 1;
      }
      assert order[..z] == order;
      Handed(old(watched), handed);
    }
  }

  /** sizeof(lpatnode): 256 entries, an object and a string. */
  const NODE_SIZE: nat := 258 * 8

  /** create_lrupat: NULL exactly where a node does not fit in a page. */
  method Create(watches: bool, pgsize: nat) returns (lp: LruPat?)
    requires pgsize > 0
    ensures lp == null <==> pgsize < NODE_SIZE
    ensures lp != null ==> fresh(lp) && fresh(lp.store) && fresh(lp.store.sl)
    ensures lp != null ==> lp.Valid() && lp.Contents() == map[] && lp.added == multiset{} && lp.watches == watches
    ensures lp != null ==> lp.watched == []
  {
    var sl := Slabs.Create(NODE_SIZE, pgsize);
    if sl == null { return null; }
    var store := new NodeStore(sl);
    lp := new LruPat(watches, store);
  }

  /** The objects at the positions, in their order; a position that is none counts as NULL. */
  ghost function Picked(objs: seq<Obj>, order: seq<nat>): (r: seq<Obj>)
    ensures |r| == |order|
  {
    seq(|order|, i requires 0 <= i < |order| => if order[i] < |objs| then objs[order[i]] else NULL)
  }

  lemma OrderFits(order: seq<nat>, n: nat)
    requires multiset(order) == multiset(Positions(n))
    ensures forall i :: 0 <= i < |order| ==> order[i] < n
  {
    forall i | 0 <= i < |order| ensures order[i] < n { assert order[i] in multiset(order); }
  }

  lemma TakenOut<T>(s: seq<T>, j: nat)
    requires j < |s|
    ensures multiset(s) == multiset(Without(s, j)) + multiset{s[j]}
  {
    assert s == s[..j] + [s[j]] + s[j + 1..];
  }

  function Without<T>(s: seq<T>, j: nat): (r: seq<T>)
    requires j < |s|
    ensures |r| == |s| - 1
  {
    s[..j] + s[j + 1..]
  }

  lemma PickedOut(objs: seq<Obj>, order: seq<nat>, j: nat, shorter: seq<nat>)
    requires j < |order| && |objs| > 0 && shorter == Without(order, j)
    requires forall i :: 0 <= i < |shorter| ==> shorter[i] < |objs| - 1
    ensures Without(Picked(objs, order), j) == Picked(Without(objs, |objs| - 1), shorter)
  {
    var lhs, rhs := Without(Picked(objs, order), j), Picked(Without(objs, |objs| - 1), shorter);
    forall i | 0 <= i < |shorter| ensures lhs[i] == rhs[i] {
      assert shorter[i] == order[if i < j then i else i + 1];
    }
  }

  lemma SameBut<T>(a: multiset<T>, b: multiset<T>, c: multiset<T>)
    requires a + c == b + c
    ensures a == b
  {
    assert a == a + c - c;
  }

  lemma OneFewer(order: seq<nat>, n: nat) returns (j: nat)
    requires multiset(order) == multiset(Positions(n)) && n > 0
    ensures j < |order| && order[j] == n - 1 && multiset(Without(order, j)) == multiset(Positions(n - 1))
  {
    TakenOut(Positions(n), n - 1);
    assert Without(Positions(n), n - 1) == Positions(n - 1);
    assert Positions(n)[n - 1] in multiset(order);
    j :| 0 <= j < |order| && order[j] == n - 1;
    TakenOut(order, j);
    SameBut(multiset(Without(order, j)), multiset(Positions(n - 1)), multiset{order[j]});
  }

  /** A list of all positions picks every object exactly once. */
  lemma {:induction false} Permuted(objs: seq<Obj>, order: seq<nat>)
    requires multiset(order) == multiset(Positions(|objs|))
    ensures multiset(Picked(objs, order)) == multiset(objs)
    decreases |objs|
  {
    var n := |objs|;
    if n == 0 {
      assert |order| == |multiset(order)| == |multiset(Positions(0))| == 0;
    } else {
      var j := OneFewer(order, n);
      hide Without, Positions, Picked;
      var shorter := Without(order, j);
      OrderFits(shorter, n - 1);
      Permuted(Without(objs, n - 1), shorter);
      PickedOut(objs, order, j, shorter);
      TakenOut(objs, n - 1);
      TakenOut(Picked(objs, order), j);
    }
  }

  // ----- a trie from outside

  datatype Pair = Pair(key: Key, obj: Obj)

  /** The object last added under the text, or under one that differs in case only. */
  function LastAdded(nocase: bool, adds: seq<Pair>, text: Key): Option<Obj> {
    if adds == [] then None
    else if Alike(nocase, text, adds[|adds| - 1].key) then Some(adds[|adds| - 1].obj)
    else LastAdded(nocase, adds[..|adds| - 1], text)
  }

  /** For each addition in turn, the object that it replaces, if there is one. */
  function Displaced(nocase: bool, adds: seq<Pair>): seq<Obj> {
    if adds == [] then []
    else
      var front := adds[..|adds| - 1];
      Displaced(nocase, front) + match LastAdded(nocase, front, adds[|adds| - 1].key) case None => [] case Some(o) => [o]
  }

  /** The map that the additions make. */
  ghost function Collected(nocase: bool, adds: seq<Pair>): map<Key, Obj> {
    if adds == [] then map[]
    else Collected(nocase, adds[..|adds| - 1])[FoldKey(nocase, adds[|adds| - 1].key) := adds[|adds| - 1].obj]
  }

  lemma {:induction false} CollectedIs(nocase: bool, adds: seq<Pair>, text: Key)
    ensures var m, k := Collected(nocase, adds), FoldKey(nocase, text);
      LastAdded(nocase, adds, text) == if k in m then Some(m[k]) else None
    decreases |adds|
  {
    if adds != [] {
      CollectedIs(nocase, adds[..|adds| - 1], text);
      FoldingIs(nocase, text, adds[|adds| - 1].key);
    }
  }

  /** The terminator is no character of the key, in either case. */
  predicate Free(nocase: bool, term: nat, k: Key) {
    forall i :: 0 <= i < |k| ==> k[i] != term && !(nocase && OneLetter(k[i], term))
  }

  lemma {:induction false} KeysAreFree(nocase: bool, adds: seq<Pair>, term: nat, k: Key)
    requires 0 < term < 256 && k in Collected(nocase, adds) && forall i :: 0 <= i < |adds| ==> Free(nocase, term, adds[i].key)
    ensures Fold(nocase, term) !in k
    decreases |adds|
  {
    var front, last := adds[..|adds| - 1], adds[|adds| - 1].key;
    if k == FoldKey(nocase, last) {
      forall i | 0 <= i < |k| ensures k[i] != Fold(nocase, term) {
        FoldingIs(nocase, [last[i]], [term]);
        assert FoldKey(nocase, [last[i]])[0] == k[i] && FoldKey(nocase, [term])[0] == Fold(nocase, term);
        assert Free(nocase, term, last);
        assert FoldKey(nocase, [last[i]]) == [k[i]] && FoldKey(nocase, [term]) == [Fold(nocase, term)];
      }
    } else {
      KeysAreFree(nocase, front, term, k);
    }
  }

  /** The text stands up to the terminator. */
  lemma CutsAt(text: Key, term: nat, after: Key)
    requires 0 < term < 256 && Free(false, term, text)
    ensures Cut(text + [term] + after, term) == |text|
    ensures (text + [term] + after)[..|text|] == text
  {
    var whole := text + [term] + after;
    assert whole[|text|] == term;
    forall i | 0 <= i < |text| ensures whole[i] != term { assert whole[i] == text[i]; }
  }

  /** Additions to a new trie, one after the other. */
  method AddAll(nocase: bool, watches: bool, adds: seq<Pair>, pgsize: nat) returns (lp: LruPat)
    requires pgsize >= 258 * 8
    ensures lp.Valid() && AllFolded(lp.View(), nocase) && lp.Contents() == Collected(nocase, adds)
    ensures lp.watched == if watches then Displaced(nocase, adds) else []
  {
    var made := Create(watches, pgsize);
    lp := made;
    LruPat.NothingStored(lp.View(), nocase);
    NothingAdded(nocase);
    hide FoldKey, Collected, Displaced, LastAdded, Softened, AllFolded, NodeStore.Holds, Attached, Homed, LpatNodes.Contents, NonNull;
    assert adds[..0] == [];
    var i := 0;
    while i < |adds|
      invariant 0 <= i <= |adds| && fresh(lp) && fresh(lp.store) && fresh(lp.store.sl)
      invariant lp.Valid() && lp.watches == watches && AllFolded(lp.View(), nocase)
      invariant lp.Contents() == Collected(nocase, adds[..i])
      invariant lp.watched == if watches then Displaced(nocase, adds[..i]) else []
    {
      OneMoreAdded(nocase, adds, i);
      lp.Add(nocase, adds[i].key, adds[i].obj);
      i := i + 1;
    }
    assert adds[..i] == adds;
  }

  /** Any additions to a new trie, plain or all without regard to case, and then a lookup, of a text
      alone or of one with a terminator and anything behind it: the answer is the object last added
      under it, and the callback has seen exactly the objects that were replaced. */
  method AddAllThenLookup(nocase: bool, watches: bool, adds: seq<Pair>, text: Key, term: nat, after: Key, pgsize: nat)
    returns (r: Option<Obj>, handed: seq<Obj>)
    requires pgsize >= 258 * 8
    requires term < 256 && (term == 0 ==> after == [])
    requires term > 0 ==> Free(false, term, text) && forall i :: 0 <= i < |adds| ==> Free(nocase, term, adds[i].key)
    ensures r == LastAdded(nocase, adds, text)
    ensures handed == if watches then Displaced(nocase, adds) else []
  {
    hide FoldKey, Collected, Displaced, LastAdded, AllFolded, NodeStore.Holds, Attached, Homed, FoundAt, Askable, Asked, NonNull;
    var lp := AddAll(nocase, watches, adds, pgsize);
    handed := lp.watched;
    LookupAsked(lp.View(), nocase, adds, text, term, after);
    r := lp.Lookup(nocase, if term == 0 then text else text + [term] + after, term);
  }

  lemma NothingAdded(nocase: bool)
    ensures Collected(nocase, []) == map[] && Displaced(nocase, []) == []
  {
  }

  lemma OneMoreAdded(nocase: bool, adds: seq<Pair>, i: nat)
    requires i < |adds|
    ensures var m, k := Collected(nocase, adds[..i]), FoldKey(nocase, adds[i].key);
      && Collected(nocase, adds[..i + 1]) == m[k := adds[i].obj]
      && Displaced(nocase, adds[..i + 1]) == Displaced(nocase, adds[..i]) + (if k in m then [m[k]] else [])
  {
    assert adds[..i + 1][..i] == adds[..i];
    CollectedIs(nocase, adds[..i], adds[i].key);
  }

  lemma LookupAsked(t: Trie, nocase: bool, adds: seq<Pair>, text: Key, term: nat, after: Key)
    requires LpatNodes.Valid(t) && AllFolded(t, nocase) && LpatNodes.Contents(t) == Collected(nocase, adds)
    requires term < 256 && (term == 0 ==> after == [])
    requires term > 0 ==> Free(false, term, text) && forall i :: 0 <= i < |adds| ==> Free(nocase, term, adds[i].key)
    ensures var whole := if term == 0 then text else text + [term] + after;
      Askable(t, nocase, term) && Asked(nocase, whole, term) == Some(FoldKey(nocase, text))
    ensures LastAdded(nocase, adds, text)
            == if FoldKey(nocase, text) in LpatNodes.Contents(t) then Some(LpatNodes.Contents(t)[FoldKey(nocase, text)]) else None
  {
    CollectedIs(nocase, adds, text);
    if term == 0 {
      assert Cut(text, 0) == |text| && text[..|text|] == text;
    } else {
      CutsAt(text, term, after);
      assert LpatNodes.Contents(t).Keys == t.home.Keys;
      forall k | k in t.home ensures Fold(nocase, term) !in k { KeysAreFree(nocase, adds, term, k); }
    }
  }
}

/** The open-addressing hash table with double hashing, tombstones and rehashing. */
module HashTables {
  import opened Arithmetic
  import opened Prelude
  import opened Probing

  // With fewer items than this a table never outgrows the 32 bits of a probe index.
  const MAX_ITEMS: nat := 0xF000_0000

  /** A slot is never used, freed by a deletion, or holds an item. */
  datatype Slot<+T> = Empty | Deleted | Full(item: T)

  /** The functions a table is created with. Two items compare equal when their
      keys are equal, so equal items always have equal hashes. */
  datatype Scheme<!T, !K> = Scheme(key: T -> K, hash1: K -> nat, hash2: K -> nat) {
    /** First position, truncated to an `unsigned int`. */
    function Start(k: K): nat {
      hash1(k) % WORD
    }

    /** The increment is forced to be odd. */
    function Step(k: K): (s: nat)
      ensures s % 2 == 1
    {
      var h := hash2(k) % WORD;
      if h % 2 == 0 then h + 1 else h
    }

    /** Slot looked at by probe n for key k in a table of the given size. */
    function At(size: nat, k: K, n: nat): (p: nat)
      requires size > 0
      ensures p < size
    {
      Probe(Start(k), Step(k), size, n)
    }
  }

  // ----- the table as a sequence of slots -----

  /** No probe before probe n finds a never-used slot, so a search for k gets to probe n. */
  ghost predicate Clear<T, K>(sc: Scheme<T, K>, v: seq<Slot<T>>, k: K, n: nat)
    requires |v| > 0
  {
    forall m: nat {:trigger sc.At(|v|, k, m)} :: m < n ==> v[sc.At(|v|, k, m)] != Empty
  }

  /** A search for k gets to slot i. */
  ghost predicate Reaches<T, K>(sc: Scheme<T, K>, v: seq<Slot<T>>, k: K, i: nat)
    requires |v| > 0
  {
    exists n: nat {:trigger sc.At(|v|, k, n)} :: sc.At(|v|, k, n) == i && Clear(sc, v, k, n)
  }

  ghost predicate Live<T, K>(sc: Scheme<T, K>, v: seq<Slot<T>>, k: K, i: nat) {
    i < |v| && v[i].Full? && sc.key(v[i].item) == k
  }

  /** Every item lies on its own probe path, and no two items compare equal. */
  ghost predicate WellPlaced<T, K>(sc: Scheme<T, K>, v: seq<Slot<T>>) {
    && 0 < |v| <= WORD && PowerOfTwo(|v|)
    && (forall i {:trigger v[i]} :: 0 <= i < |v| && v[i].Full? ==> Reaches(sc, v, sc.key(v[i].item), i))
    && Distinct(sc, v)
  }

  ghost predicate Distinct<T, K>(sc: Scheme<T, K>, v: seq<Slot<T>>) {
    forall i, j {:trigger v[i], v[j]} :: 0 <= i < j < |v| && v[i].Full? && v[j].Full?
      ==> sc.key(v[i].item) != sc.key(v[j].item)
  }

  /** The finite map the table stands for. */
  ghost function Contents<T, K>(sc: Scheme<T, K>, v: seq<Slot<T>>): map<K, T> {
    ContentsTo(sc, v, |v|)
  }

  /** The map made by the first n slots. */
  ghost function ContentsTo<T, K>(sc: Scheme<T, K>, v: seq<Slot<T>>, n: nat): map<K, T>
    requires n <= |v|
  {
    if n == 0 then map[] else
    var rest := ContentsTo(sc, v, n - 1);
    if v[n - 1].Full? then rest[sc.key(v[n - 1].item) := v[n - 1].item] else rest
  }

  /** Where a search for k ends: at the item with key k, or else at the first
      slot on the path of k into which an item may be put. */
  ghost predicate IsSlotFor<T, K>(sc: Scheme<T, K>, v: seq<Slot<T>>, k: K, i: nat)
    requires |v| > 0
  {
    if k in Contents(sc, v) then
      Live(sc, v, k, i)
    else
      i < |v| && !v[i].Full? && exists n: nat :: sc.At(|v|, k, n) == i && AllFullBefore(sc, v, k, n)
  }

  ghost predicate AllFullBefore<T, K>(sc: Scheme<T, K>, v: seq<Slot<T>>, k: K, n: nat)
    requires |v| > 0
  {
    forall m: nat {:trigger sc.At(|v|, k, m)} :: m < n ==> v[sc.At(|v|, k, m)].Full?
  }

  /** What hash_find_slot remembers after n probes: the first freed slot among them, if any. */
  ghost predicate FirstTombstone<T, K>(sc: Scheme<T, K>, v: seq<Slot<T>>, k: K, n: nat, slot: Option<nat>)
    requires |v| > 0
  {
    match slot
    case None => AllFullBefore(sc, v, k, n)
    case Some(d) => d < |v| && v[d] == Deleted && exists m: nat :: sc.At(|v|, k, m) == d && AllFullBefore(sc, v, k, m)
  }

  /** A search stops at probe n. */
  ghost predicate StopsAt<T, K>(sc: Scheme<T, K>, v: seq<Slot<T>>, k: K, n: nat)
    requires |v| > 0
  {
    v[sc.At(|v|, k, n)] == Empty || Live(sc, v, k, sc.At(|v|, k, n))
  }

  lemma LiveIsContents<T, K>(sc: Scheme<T, K>, v: seq<Slot<T>>, k: K)
    requires Distinct(sc, v)
    ensures k in Contents(sc, v) <==> exists i: nat :: Live(sc, v, k, i)
    ensures forall i: nat :: Live(sc, v, k, i) ==> Contents(sc, v)[k] == v[i].item
  {
    LiveIsContentsTo(sc, v, k, |v|);
  }

  lemma {:induction false} LiveIsContentsTo<T, K>(sc: Scheme<T, K>, v: seq<Slot<T>>, k: K, n: nat)
    requires Distinct(sc, v) && n <= |v|
    ensures k in ContentsTo(sc, v, n) <==> exists i: nat :: i < n && Live(sc, v, k, i)
    ensures forall i: nat :: i < n && Live(sc, v, k, i) ==> ContentsTo(sc, v, n)[k] == v[i].item
  {
    if n > 0 {
      LiveIsContentsTo(sc, v, k, n - 1);
      if k in ContentsTo(sc, v, n) {
        assert Live(sc, v, k, n - 1) || exists i: nat :: i < n - 1 && Live(sc, v, k, i);
      }
    }
  }

  /** The search for k stops, at the latest with probe |v| - 1, exactly when
      there is a never-used slot or the key is present. */
  lemma SearchStops<T, K>(sc: Scheme<T, K>, v: seq<Slot<T>>, k: K)
    requires WellPlaced(sc, v)
    ensures (exists n: nat :: n < |v| && StopsAt(sc, v, k, n)) <==> (Empty in v || k in Contents(sc, v))
    ensures (exists n: nat :: StopsAt(sc, v, k, n)) <==> (Empty in v || k in Contents(sc, v))
  {
    LiveIsContents(sc, v, k);
    if Empty in v || k in Contents(sc, v) {
      var i: nat :| i < |v| && (v[i] == Empty || Live(sc, v, k, i));
      var n := OddStepHitsEverySlot(sc.Start(k), sc.Step(k), |v|, i);
      assert sc.At(|v|, k, n) == i;
      assert StopsAt(sc, v, k, n);
    }
  }

  /** A key that is present is found before the first never-used slot on its path. */
  lemma FoundBeforeEmpty<T, K>(sc: Scheme<T, K>, v: seq<Slot<T>>, k: K, n: nat) returns (m: nat)
    requires WellPlaced(sc, v) && k in Contents(sc, v)
    requires v[sc.At(|v|, k, n)] == Empty
    ensures m < n && Live(sc, v, k, sc.At(|v|, k, m))
  {
    LiveIsContents(sc, v, k);
    var i: nat :| Live(sc, v, k, i);
    m :| sc.At(|v|, k, m) == i && Clear(sc, v, k, m);
    assert m < n;
  }

  // ----- the search -----

  /** A search for k has gone through n probes. */
  ghost predicate Searching<T, K>(sc: Scheme<T, K>, v: seq<Slot<T>>, k: K, n: nat, deletedSlot: Option<nat>)
    requires |v| > 0
  {
    && (forall m: nat :: m < n ==> !StopsAt(sc, v, k, m))
    && FirstTombstone(sc, v, k, n, deletedSlot)
  }

  lemma LiveIsSlot<T, K>(sc: Scheme<T, K>, v: seq<Slot<T>>, k: K, i: nat)
    requires WellPlaced(sc, v) && Live(sc, v, k, i)
    ensures IsSlotFor(sc, v, k, i)
  {
    LiveIsContents(sc, v, k);
  }

  /** Nothing that ends the search is in the slots gone through. */
  lemma NotPresent<T, K>(sc: Scheme<T, K>, v: seq<Slot<T>>, k: K, n: nat, deletedSlot: Option<nat>)
    requires WellPlaced(sc, v) && Searching(sc, v, k, n, deletedSlot) && v[sc.At(|v|, k, n)] == Empty
    ensures k !in Contents(sc, v)
  {
    if k in Contents(sc, v) {
      var m := FoundBeforeEmpty(sc, v, k, n);
      assert StopsAt(sc, v, k, m);
    }
  }

  /** A never-used slot ends the search: an item for k belongs into the first free slot. */
  lemma EndsAtEmpty<T, K>(sc: Scheme<T, K>, v: seq<Slot<T>>, k: K, n: nat, deletedSlot: Option<nat>)
    requires WellPlaced(sc, v) && Searching(sc, v, k, n, deletedSlot) && v[sc.At(|v|, k, n)] == Empty
    ensures IsSlotFor(sc, v, k, if deletedSlot.Some? then deletedSlot.value else sc.At(|v|, k, n))
  {
    NotPresent(sc, v, k, n, deletedSlot);
    match deletedSlot
    case None =>
      var i := sc.At(|v|, k, n);
      assert sc.At(|v|, k, n) == i && AllFullBefore(sc, v, k, n);
    case Some(d) =>
      var m: nat :| sc.At(|v|, k, m) == d && AllFullBefore(sc, v, k, m);
      assert !v[d].Full?;
  }

  /** A freed slot is remembered if it is the first; an item with another key is passed. */
  lemma GoesOn<T, K>(sc: Scheme<T, K>, v: seq<Slot<T>>, k: K, n: nat, deletedSlot: Option<nat>)
    requires |v| > 0 && Searching(sc, v, k, n, deletedSlot) && !StopsAt(sc, v, k, n)
    ensures var i := sc.At(|v|, k, n);
      Searching(sc, v, k, n + 1, if v[i] == Deleted && deletedSlot == None then Some(i) else deletedSlot)
  {
    if deletedSlot == None { TombstoneOrFull(sc, v, k, n, sc.At(|v|, k, n)); }
  }

  lemma TombstoneOrFull<T, K>(sc: Scheme<T, K>, v: seq<Slot<T>>, k: K, n: nat, i: nat)
    requires |v| > 0 && AllFullBefore(sc, v, k, n) && i == sc.At(|v|, k, n) && v[i] != Empty
    ensures FirstTombstone(sc, v, k, n + 1, if v[i] == Deleted then Some(i) else None)
  {
  }

  /** Overwriting a slot with something other than Empty keeps every path open. */
  lemma WriteKeepsPaths<T, K>(sc: Scheme<T, K>, v: seq<Slot<T>>, i: nat, s: Slot<T>)
    requires |v| > 0 && i < |v| && s != Empty
    ensures forall k, j: nat :: Reaches(sc, v, k, j) ==> Reaches(sc, v[i := s], k, j)
  {
    forall k, j: nat | Reaches(sc, v, k, j) ensures Reaches(sc, v[i := s], k, j) {
      var n: nat :| sc.At(|v|, k, n) == j && Clear(sc, v, k, n);
      assert Clear(sc, v[i := s], k, n);
    }
  }

  /** No other slot than the one found for a key holds the key. */
  lemma OnlyInSlot<T, K>(sc: Scheme<T, K>, v: seq<Slot<T>>, k: K, i: nat)
    requires WellPlaced(sc, v) && IsSlotFor(sc, v, k, i)
    ensures i < |v| && (v[i].Full? ==> sc.key(v[i].item) == k)
    ensures forall j: nat :: j < |v| && j != i ==> !Live(sc, v, k, j)
  {
    LiveIsContents(sc, v, k);
  }

  lemma InsertKeepsDistinct<T, K>(sc: Scheme<T, K>, v: seq<Slot<T>>, i: nat, item: T)
    requires Distinct(sc, v) && i < |v|
    requires forall j: nat :: j < |v| && j != i ==> !Live(sc, v, sc.key(item), j)
    ensures Distinct(sc, v[i := Full(item)])
  {
    var w := v[i := Full(item)];
    forall a, b | 0 <= a < b < |w| && w[a].Full? && w[b].Full?
      ensures sc.key(w[a].item) != sc.key(w[b].item)
    {
      if a == i {
        assert w[b] == v[b] && !Live(sc, v, sc.key(item), b);
      } else if b == i {
        assert w[a] == v[a] && !Live(sc, v, sc.key(item), a);
      }
    }
  }

  /** Every item is still reached, and so is the new one. */
  lemma InsertKeepsPlaces<T, K>(sc: Scheme<T, K>, v: seq<Slot<T>>, i: nat, item: T)
    requires WellPlaced(sc, v) && IsSlotFor(sc, v, sc.key(item), i)
    ensures i < |v| && WellPlaced(sc, v[i := Full(item)])
  {
    var w := v[i := Full(item)];
    OnlyInSlot(sc, v, sc.key(item), i);
    InsertKeepsDistinct(sc, v, i, item);
    WriteKeepsPaths(sc, v, i, Full(item));
    SlotIsReached(sc, v, sc.key(item), i);
    forall j: nat | j < |w| && w[j].Full? ensures Reaches(sc, w, sc.key(w[j].item), j) {
      if j != i { assert w[j] == v[j]; }
    }
  }

  /** Putting an item into the slot found for its key updates the map at that key only. */
  lemma InsertUpdates<T, K>(sc: Scheme<T, K>, v: seq<Slot<T>>, i: nat, item: T)
    requires WellPlaced(sc, v) && IsSlotFor(sc, v, sc.key(item), i)
    ensures WellPlaced(sc, v[i := Full(item)])
    ensures Contents(sc, v[i := Full(item)]) == Contents(sc, v)[sc.key(item) := item]
  {
    OnlyInSlot(sc, v, sc.key(item), i);
    InsertKeepsPlaces(sc, v, i, item);
    ContentsAfterWrite(sc, v, v[i := Full(item)], i, sc.key(item));
  }

  lemma SlotIsReached<T, K>(sc: Scheme<T, K>, v: seq<Slot<T>>, k: K, i: nat)
    requires WellPlaced(sc, v) && IsSlotFor(sc, v, k, i)
    ensures i < |v| && Reaches(sc, v, k, i)
  {
    if k !in Contents(sc, v) {
      var n: nat :| sc.At(|v|, k, n) == i && AllFullBefore(sc, v, k, n);
      assert Clear(sc, v, k, n);
    }
  }

  /** A write to slot i affects the map only at the keys of what slot i held and holds. */
  lemma ContentsAfterWrite<T, K>(sc: Scheme<T, K>, v: seq<Slot<T>>, w: seq<Slot<T>>, i: nat, k: K)
    requires Distinct(sc, v) && Distinct(sc, w) && SameBut(v, w, i)
    requires forall j: nat :: j < |v| && j != i ==> !Live(sc, v, k, j)
    requires v[i].Full? ==> sc.key(v[i].item) == k
    requires w[i].Full? ==> sc.key(w[i].item) == k
    ensures w[i].Full? ==> Contents(sc, w) == Contents(sc, v)[k := w[i].item]
    ensures !w[i].Full? ==> Contents(sc, w) == Contents(sc, v) - {k}
  {
    var cv, cw := Contents(sc, v), Contents(sc, w);
    LiveIsContents(sc, w, k);
    forall l: K | l != k
      ensures AgreeAt(cv, cw, l)
    {
      OtherKeysStay(sc, v, w, i, k, l);
    }
    if w[i].Full? {
      assert Live(sc, w, k, i);
    } else {
      forall j: nat ensures !Live(sc, w, k, j) {
        if j < |v| && j != i { assert !Live(sc, v, k, j); }
      }
    }
    MapsAgree(cv, cw, k);
  }

  lemma MapsAgree<T, K>(a: map<K, T>, b: map<K, T>, k: K)
    requires forall l :: l != k ==> AgreeAt(a, b, l)
    ensures k in b ==> b == a[k := b[k]]
    ensures k !in b ==> b == a - {k}
  {
    if k in b {
      var c := a[k := b[k]];
      assert forall l :: (l in b || l in c) ==> AgreeAt(a, b, l) || l == k;
    } else {
      var c := a - {k};
      assert forall l :: (l in b || l in c) ==> AgreeAt(a, b, l) || l == k;
    }
  }

  ghost predicate AgreeAt<T, K>(a: map<K, T>, b: map<K, T>, l: K) {
    (l in a <==> l in b) && (l in a ==> a[l] == b[l])
  }

  ghost predicate SameBut<T>(v: seq<Slot<T>>, w: seq<Slot<T>>, i: nat) {
    |v| == |w| && i < |v| && forall j: nat :: j < |v| && j != i ==> w[j] == v[j]
  }

  lemma OtherKeysStay<T, K>(sc: Scheme<T, K>, v: seq<Slot<T>>, w: seq<Slot<T>>, i: nat, k: K, l: K)
    requires Distinct(sc, v) && Distinct(sc, w) && SameBut(v, w, i) && l != k
    requires v[i].Full? ==> sc.key(v[i].item) == k
    requires w[i].Full? ==> sc.key(w[i].item) == k
    ensures l in Contents(sc, v) <==> l in Contents(sc, w)
    ensures l in Contents(sc, v) ==> Contents(sc, w)[l] == Contents(sc, v)[l]
  {
    LiveIsContents(sc, v, l);
    LiveIsContents(sc, w, l);
    assert forall j: nat :: Live(sc, v, l, j) <==> Live(sc, w, l, j);
  }

  /** A deletion removes exactly one key. */
  lemma DeleteUpdates<T, K>(sc: Scheme<T, K>, v: seq<Slot<T>>, i: nat)
    requires WellPlaced(sc, v) && i < |v| && v[i].Full?
    ensures WellPlaced(sc, v[i := Deleted])
    ensures Contents(sc, v[i := Deleted]) == Contents(sc, v) - {sc.key(v[i].item)}
  {
    var k, w := sc.key(v[i].item), v[i := Deleted];
    WriteKeepsPaths(sc, v, i, Deleted);
    assert forall j :: 0 <= j < |v| && j != i ==> w[j] == v[j];
    ContentsAfterWrite(sc, v, w, i, k);
  }

  // ----- the two counters -----

  ghost function CountFull<T>(v: seq<Slot<T>>): nat {
    FullTo(v, |v|)
  }

  ghost function CountEmpty<T>(v: seq<Slot<T>>): nat {
    EmptyTo(v, |v|)
  }

  ghost function FullTo<T>(v: seq<Slot<T>>, n: nat): (c: nat)
    requires n <= |v|
    ensures c <= n
  {
    if n == 0 then 0 else FullTo(v, n - 1) + if v[n - 1].Full? then 1 else 0
  }

  ghost function EmptyTo<T>(v: seq<Slot<T>>, n: nat): (c: nat)
    requires n <= |v|
    ensures c <= n
  {
    if n == 0 then 0 else EmptyTo(v, n - 1) + if v[n - 1].Empty? then 1 else 0
  }

  lemma {:induction false} CountsAfterWrite<T>(v: seq<Slot<T>>, i: nat, s: Slot<T>)
    requires i < |v|
    ensures CountFull(v[i := s]) == CountFull(v) - (if v[i].Full? then 1 else 0) + (if s.Full? then 1 else 0)
    ensures CountEmpty(v[i := s]) == CountEmpty(v) - (if v[i].Empty? then 1 else 0) + (if s.Empty? then 1 else 0)
  {
    CountsToAfterWrite(v, i, s, |v|);
  }

  lemma {:induction false} CountsToAfterWrite<T>(v: seq<Slot<T>>, i: nat, s: Slot<T>, n: nat)
    requires i < |v| && n <= |v|
    ensures FullTo(v[i := s], n) ==
      FullTo(v, n) - (if i < n && v[i].Full? then 1 else 0) + (if i < n && s.Full? then 1 else 0)
    ensures EmptyTo(v[i := s], n) ==
      EmptyTo(v, n) - (if i < n && v[i].Empty? then 1 else 0) + (if i < n && s.Empty? then 1 else 0)
  {
    if n > 0 { CountsToAfterWrite(v, i, s, n - 1); }
  }

  /** The counter of never-used slots tells whether there is one. */
  lemma {:induction false} CountEmptyMeansSome<T>(v: seq<Slot<T>>, n: nat)
    requires n <= |v|
    ensures EmptyTo(v, n) > 0 <==> Empty in v[..n]
  {
    if n > 0 {
      CountEmptyMeansSome(v, n - 1);
      assert v[..n] == v[..n - 1] + [v[n - 1]];
    }
  }

  lemma HasEmpty<T>(v: seq<Slot<T>>)
    ensures CountEmpty(v) > 0 <==> Empty in v
  {
    CountEmptyMeansSome(v, |v|);
    assert v[..|v|] == v;
  }

  /** The number of items is the size of the map. */
  lemma {:induction false} CountIsCardinality<T, K>(sc: Scheme<T, K>, v: seq<Slot<T>>, n: nat)
    requires Distinct(sc, v) && n <= |v|
    ensures FullTo(v, n) == |ContentsTo(sc, v, n)|
  {
    if n > 0 {
      CountIsCardinality(sc, v, n - 1);
      if v[n - 1].Full? {
        LiveIsContentsTo(sc, v, sc.key(v[n - 1].item), n - 1);
      }
    }
  }

  lemma {:induction false} CountsWithoutDeleted<T>(v: seq<Slot<T>>, n: nat)
    requires Deleted !in v && n <= |v|
    ensures EmptyTo(v, n) + FullTo(v, n) == n
  {
    if n > 0 { CountsWithoutDeleted(v, n - 1); }
  }

  lemma {:induction false} AllEmpty<T, K>(sc: Scheme<T, K>, v: seq<Slot<T>>, n: nat)
    requires n <= |v| && forall i :: 0 <= i < |v| ==> v[i] == Empty
    ensures EmptyTo(v, n) == n && FullTo(v, n) == 0 && ContentsTo(sc, v, n) == map[]
  {
    if n > 0 { AllEmpty(sc, v, n - 1); }
  }

  // ----- the table itself -----

  class HashTable<T, K(==)> {
    const sc: Scheme<T, K>
    var vec: array<Slot<T>>
    var size: nat
    var capacity: nat
    var fill: nat
    var emptySlots: nat

    /** Enough for a search; holds even while the table is being rehashed. */
    ghost predicate Placed()
      reads this, vec
    {
      size == vec.Length && WellPlaced(sc, vec[..])
    }

    ghost predicate Valid()
      reads this, vec
    {
      && Placed()
      && capacity == size - size / 16
      && fill == CountFull(vec[..])
      && emptySlots == CountEmpty(vec[..])
      && emptySlots >= size - capacity
    }

    /** One more item does not make the table outgrow the 32 bits of a probe index. */
    predicate CanGrow()
      reads this
    {
      size <= WORD / 2 || fill + 1 < capacity
    }

    lemma FewItemsCanGrow()
      requires Valid() && fill + 1 < MAX_ITEMS
      ensures CanGrow()
    {
      LargestSize(size);
    }

    ghost function Items(): map<K, T>
      reads this, vec
    {
      Contents(sc, vec[..])
    }

    /** hash_init: the size is rounded up to a larger power of two. */
    constructor (sc: Scheme<T, K>, n: nat)
      requires n < WORD
      ensures Valid() && fresh(vec) && this.sc == sc
      ensures Items() == map[] && fill == 0 && emptySlots == size
      ensures n < size && (n > 0 ==> size <= 2 * n)
    {
      this.sc := sc;
      var rounded := RoundUp2(n);
      size := rounded;
      emptySlots := rounded;
      capacity := rounded - rounded / 16;
      fill := 0;
      vec := new Slot<T>[rounded](_ => Empty);
      new;
      BelowWord(n, size);
      FreshTable(sc, vec[..]);
    }

    /** hash_find_slot */
    method FindSlot(k: K) returns (slot: nat)
      requires Placed()
      requires Empty in vec[..] || k in Items()
      ensures IsSlotFor(sc, vec[..], k, slot)
    {
      ghost var v := vec[..];
      SearchStops(sc, v, k);
      ghost var stop: nat :| stop < |v| && StopsAt(sc, v, k, stop);
      ghost var n: nat := 0;
      var deletedSlot: Option<nat> := None;
      var hash2 := 0;
      var hash1 := sc.Start(k);
      while true
        invariant n <= stop && hash1 % size == sc.At(size, k, n)
        invariant hash2 == 0 || hash2 == sc.Step(k)
        invariant Searching(sc, v, k, n, deletedSlot)
        decreases stop - n
      {
        hash1 := hash1 % size;
        if vec[hash1] == Empty {
          EndsAtEmpty(sc, v, k, n, deletedSlot);
          return if deletedSlot.Some? then deletedSlot.value else hash1;
        }
        ghost var before := deletedSlot;
        if vec[hash1] == Deleted {
          if deletedSlot == None { deletedSlot := Some(hash1); }
        } else {
          if sc.key(vec[hash1].item) == k {
            LiveIsSlot(sc, v, k, hash1);
            return hash1;
          }
        }
        if hash2 == 0 { hash2 := sc.Step(k); }
        GoesOn(sc, v, k, n, before);
        NextProbe(sc.Start(k), sc.Step(k), size, n);
        hash1 := (hash1 + hash2) % WORD;
        n := n + 1;
      }
    }

    /** hash_find_item */
    method FindItem(k: K) returns (item: Option<T>)
      requires Valid()
      requires emptySlots > 0 || k in Items()
      ensures item == if k in Items() then Some(Items()[k]) else None
    {
      HasEmpty(vec[..]);
      var slot := FindSlot(k);
      LiveIsContents(sc, vec[..], k);
      item := if vec[slot].Full? then Some(vec[slot].item) else None;
    }

    /** Write the item and count it. */
    method Store(item: T, slot: nat)
      requires Valid() && IsSlotFor(sc, vec[..], sc.key(item), slot)
      modifies `fill, `emptySlots, vec
      ensures Placed() && fill == CountFull(vec[..]) && emptySlots == CountEmpty(vec[..])
      ensures Items() == old(Items())[sc.key(item) := item] && Live(sc, vec[..], sc.key(item), slot)
      ensures old(fill) <= fill <= old(fill) + 1 && emptySlots <= old(emptySlots) <= emptySlots + 1
      ensures emptySlots < old(emptySlots) ==> fill == old(fill) + 1
    {
      ghost var v := vec[..];
      SlotIsReached(sc, v, sc.key(item), slot);
      InsertUpdates(sc, v, slot, item);
      CountsAfterWrite(v, slot, Full(item));
      if !vec[slot].Full? {
        fill := fill + 1;
        if vec[slot] == Empty { emptySlots := emptySlots - 1; }
      }
      vec[slot] := Full(item);
      assert vec[..] == v[slot := Full(item)];
    }

    /** hash_insert_at: store the item in the slot found for it, and rehash when
        too few never-used slots are left. Returns where the item is now. */
    method InsertAt(item: T, slot: nat) returns (where: nat)
      requires Valid() && CanGrow()
      requires IsSlotFor(sc, vec[..], sc.key(item), slot)
      modifies this, vec
      ensures Valid() && (vec == old(vec) || fresh(vec))
      ensures Items() == old(Items())[sc.key(item) := item]
      ensures Live(sc, vec[..], sc.key(item), where)
      ensures emptySlots + 1 >= old(emptySlots) && (size >= 16 ==> emptySlots > 0)
      ensures fill <= old(fill) + 1
      ensures size == old(size) || (size == 2 * old(size) && fill >= old(size) - old(size) / 16)
    {
      Store(item, slot);
      if emptySlots < size - capacity {
        Rehash();
        where := FindSlot(sc.key(item));
      } else {
        where := slot;
      }
    }

    /** hash_insert: returns the item that was replaced, if any. */
    method Insert(item: T) returns (replaced: Option<T>)
      requires Valid() && CanGrow()
      requires emptySlots > 0 || sc.key(item) in Items()
      modifies this, vec
      ensures Valid() && (vec == old(vec) || fresh(vec))
      ensures Items() == old(Items())[sc.key(item) := item]
      ensures replaced == if sc.key(item) in old(Items()) then Some(old(Items())[sc.key(item)]) else None
      ensures emptySlots + 1 >= old(emptySlots) && (size >= 16 ==> emptySlots > 0)
      ensures fill <= old(fill) + 1
      ensures size == old(size) || (size == 2 * old(size) && fill >= old(size) - old(size) / 16)
    {
      HasEmpty(vec[..]);
      var slot := FindSlot(sc.key(item));
      LiveIsContents(sc, vec[..], sc.key(item));
      replaced := if vec[slot].Full? then Some(vec[slot].item) else None;
      var _ := InsertAt(item, slot);
    }

    /** hash_delete_at: leaves a tombstone, so the paths of other items stay open. */
    method DeleteAt(slot: nat) returns (item: Option<T>)
      requires Valid() && slot < size
      modifies this, vec
      ensures Valid() && vec == old(vec) && size == old(size) && emptySlots == old(emptySlots)
      ensures item == if old(vec[slot]).Full? then Some(old(vec[slot]).item) else None
      ensures Items() == if item.Some? then old(Items()) - {sc.key(item.value)} else old(Items())
    {
      ghost var v := vec[..];
      if vec[slot].Full? {
        DeleteUpdates(sc, v, slot);
        CountsAfterWrite(v, slot, Deleted);
        item := Some(vec[slot].item);
        vec[slot] := Deleted;
        assert vec[..] == v[slot := Deleted];
        fill := fill - 1;
      } else {
        item := None;
      }
    }

    /** hash_delete */
    method Delete(k: K) returns (item: Option<T>)
      requires Valid()
      requires emptySlots > 0 || k in Items()
      modifies this, vec
      ensures Valid() && vec == old(vec) && size == old(size) && emptySlots == old(emptySlots)
      ensures item == if k in old(Items()) then Some(old(Items())[k]) else None
      ensures Items() == old(Items()) - {k}
    {
      HasEmpty(vec[..]);
      var slot := FindSlot(k);
      LiveIsContents(sc, vec[..], k);
      item := DeleteAt(slot);
    }

    /** The step of hash_rehash that copies one item into the new vector. */
    method Reinsert(item: T)
      requires Placed() && Empty in vec[..] && Deleted !in vec[..]
      requires sc.key(item) !in Items()
      modifies vec
      ensures Placed() && Deleted !in vec[..]
      ensures Items() == old(Items())[sc.key(item) := item]
      ensures CountFull(vec[..]) == old(CountFull(vec[..])) + 1
    {
      var slot := FindSlot(sc.key(item));
      ghost var w := vec[..];
      InsertUpdates(sc, w, slot, item);
      CountsAfterWrite(w, slot, Full(item));
      vec[slot] := Full(item);
      assert vec[..] == w[slot := Full(item)];
    }

    /** hash_rehash: double the table when it is full of items, otherwise only
        purge the tombstones. Either way the map is unchanged. */
    method Rehash()
      requires Placed() && (fill >= capacity ==> size <= WORD / 2)
      requires capacity == size - size / 16 && size / 16 > 0
      requires fill == CountFull(vec[..])
      modifies this
      ensures Valid() && fresh(vec)
      ensures Items() == old(Items()) && fill == old(fill)
      ensures size == if old(fill) >= old(capacity) then 2 * old(size) else old(size)
      ensures emptySlots == size - fill
    {
      var oldVec := vec;
      RoomAfterRehash(size, fill);
      if fill >= capacity {
        size := size * 2;
        capacity := size - size / 16;
      }
      NewVector();
      ReinsertAll(oldVec);
      CountsWithoutDeleted(vec[..], size);
      emptySlots := size - fill;
    }

    method NewVector()
      requires 0 < size <= WORD && PowerOfTwo(size)
      modifies `vec
      ensures fresh(vec) && Placed() && Deleted !in vec[..]
      ensures Items() == map[] && CountFull(vec[..]) == 0
    {
      vec := new Slot<T>[size](_ => Empty);
      FreshTable(sc, vec[..]);
    }

    /** The loop of hash_rehash. */
    method ReinsertAll(oldVec: array<Slot<T>>)
      requires vec != oldVec && Distinct(sc, oldVec[..]) && oldVec.Length <= size
      requires Placed() && Items() == map[] && CountFull(vec[..]) == 0 && Deleted !in vec[..]
      modifies vec
      ensures Placed() && Deleted !in vec[..]
      ensures Items() == Contents(sc, oldVec[..]) && CountFull(vec[..]) == CountFull(oldVec[..])
    {
      ghost var v := oldVec[..];
      for o := 0 to oldVec.Length
        invariant Placed() && oldVec[..] == v && Deleted !in vec[..]
        invariant Items() == ContentsTo(sc, v, o) && CountFull(vec[..]) == FullTo(v, o)
      {
        if oldVec[o].Full? {
          KeyIsNew(sc, v, o);
          RoomWhileRehashing(vec[..], v, o);
          Reinsert(oldVec[o].item);
        }
      }
    }
  }

  lemma LargestSize(size: nat)
    requires PowerOfTwo(size) && size <= WORD
    ensures size <= WORD / 2 || size == WORD
  {
    HalfWordIsPower();
    if size > WORD / 2 {
      PowersDivide(WORD / 2, size);
      if size < WORD { DivMod(size, WORD / 2, 1, size - WORD / 2); }
    }
  }

  lemma HalfWordIsPower()
    ensures PowerOfTwo(WORD / 2)
  {
    WordIsPower();
  }

  /** Doubling a full table, or purging one that is not full, leaves enough never-used slots. */
  lemma RoomAfterRehash(size: nat, fill: nat)
    requires fill <= size && size / 16 > 0
    ensures fill >= size - size / 16 ==> 2 * size - fill > 2 * size / 16
    ensures fill < size - size / 16 ==> size - fill > size / 16
  {
  }

  lemma FreshTable<T, K>(sc: Scheme<T, K>, v: seq<Slot<T>>)
    requires 0 < |v| <= WORD && PowerOfTwo(|v|)
    requires forall i :: 0 <= i < |v| ==> v[i] == Empty
    ensures WellPlaced(sc, v) && Deleted !in v
    ensures Contents(sc, v) == map[] && CountFull(v) == 0 && CountEmpty(v) == |v|
  {
    AllEmpty(sc, v, |v|);
  }

  /** While rehashing, the next item has a key not yet moved. */
  lemma KeyIsNew<T, K>(sc: Scheme<T, K>, v: seq<Slot<T>>, o: nat)
    requires Distinct(sc, v) && o < |v| && v[o].Full?
    ensures sc.key(v[o].item) !in ContentsTo(sc, v, o)
  {
    LiveIsContentsTo(sc, v, sc.key(v[o].item), o);
  }

  /** While rehashing, a never-used slot is always left. */
  lemma RoomWhileRehashing<T>(w: seq<Slot<T>>, v: seq<Slot<T>>, o: nat)
    requires o < |v| <= |w| && v[o].Full?
    requires Deleted !in w
    requires CountFull(w) == FullTo(v, o)
    ensures Empty in w
  {
    CountsWithoutDeleted(w, |w|);
    HasEmpty(w);
  }
}

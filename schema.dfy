/** The schema cache: the ordered field list of one segment type, built from
    the type's properties in enumeration order and checked for duplicate and
    skipped orders, and the per-value length check against a field's
    `Segment` attribute. */
module Schema {
  import opened Wrappers
  import opened Text

  /** A C# `int`. */
  type Int32 = x: int | Int32Min <= x <= Int32Max

  /** The `Segment` attribute on a record property. */
  datatype SegmentAttribute = SegmentAttribute(
    order: Int32,
    optional: bool,
    minLength: Option<int>,
    maxLength: Option<int>)

  /** A property of a record type as the registry lists it; `segment` is
      None for a property without a `Segment` attribute. */
  datatype Property = Property(name: string, segment: Option<SegmentAttribute>)

  /** `PropCache`: an attributed property with its attribute. */
  datatype PropCache = PropCache(name: string, segment: SegmentAttribute)

  // ---------------------------------------------------------------------
  // Specification of the cached list
  // ---------------------------------------------------------------------

  /** The attributed properties, in enumeration order. */
  function Attributed(props: seq<Property>): (r: seq<PropCache>)
    ensures |r| <= |props|
  {
    if props == [] then []
    else
      var last := props[|props| - 1];
      Attributed(props[..|props| - 1]) +
        (if last.segment.Some? then [PropCache(last.name, last.segment.value)] else [])
  }

  /** The orders declared by a list of fields. */
  function OrderSet(fs: seq<PropCache>): set<int> {
    if fs == [] then {} else OrderSet(fs[..|fs| - 1]) + {fs[|fs| - 1].segment.order}
  }

  function Max(a: int, b: int): int { if a < b then b else a }

  /** `maxKey` at the time a field is checked: 0 before any field has been
      accepted, and the largest order accepted so far after that. */
  function MaxKey(fs: seq<PropCache>): (m: int)
    ensures fs != [] ==> m in OrderSet(fs)
  {
    if fs == [] then 0
    else if |fs| == 1 then fs[0].segment.order
    else Max(MaxKey(fs[..|fs| - 1]), fs[|fs| - 1].segment.order)
  }

  /** How the orders and `maxKey` grow by one field. */
  lemma SnocFacts(fs: seq<PropCache>, f: PropCache)
    ensures OrderSet(fs + [f]) == OrderSet(fs) + {f.segment.order}
    ensures MaxKey(fs + [f]) == if fs == [] then f.segment.order else Max(MaxKey(fs), f.segment.order)
  {
    assert (fs + [f])[..|fs|] == fs;
  }

  /** `maxKey` bounds every declared order. */
  lemma {:induction false} MaxKeyBound(fs: seq<PropCache>)
    ensures forall o :: o in OrderSet(fs) ==> o <= MaxKey(fs)
  {
    if fs != [] {
      var prev := fs[..|fs| - 1];
      assert fs == prev + [fs[|fs| - 1]];
      MaxKeyBound(prev);
      SnocFacts(prev, fs[|fs| - 1]);
    }
  }

  /** The order of field `i` is among the declared orders. */
  lemma {:induction false} OrderOf(fs: seq<PropCache>, i: nat)
    requires i < |fs|
    ensures fs[i].segment.order in OrderSet(fs)
  {
    var prev := fs[..|fs| - 1];
    if i < |fs| - 1 {
      OrderOf(prev, i);
    }
  }

  /** The declared orders are those of the fields. */
  lemma {:induction false} OrderSetMembers(fs: seq<PropCache>, o: int)
    requires o in OrderSet(fs)
    ensures exists i :: 0 <= i < |fs| && fs[i].segment.order == o
  {
    var prev := fs[..|fs| - 1];
    if o != fs[|fs| - 1].segment.order {
      OrderSetMembers(prev, o);
      var i :| 0 <= i < |prev| && prev[i].segment.order == o;
      assert fs[i] == prev[i];
    }
  }

  /** `o - 1` in unchecked 32-bit arithmetic: the least order wraps around
      to the greatest. */
  function OrderPred(o: Int32): (r: Int32)
    ensures (r - (o - 1)) % 0x1_0000_0000 == 0
  {
    if o == Int32Min then Int32Max else o - 1
  }

  /** A field of order `o` may follow the fields `prev`: the order is new and
      its 32-bit predecessor is not above `maxKey`. */
  predicate Admits(prev: seq<PropCache>, o: Int32)
    ensures Admits(prev, o) ==> o <= MaxKey(prev) + 1
  {
    o !in OrderSet(prev) && !(MaxKey(prev) < OrderPred(o))
  }

  /** Each field in turn is admitted by the fields before it. The first
      order is then at most 1 and not `int.MinValue`. */
  predicate WellOrdered(fs: seq<PropCache>)
    ensures WellOrdered(fs) && fs != [] ==>
      fs[0].segment.order <= 1 && fs[0].segment.order != Int32Min
  {
    fs == [] || (WellOrdered(fs[..|fs| - 1]) && Admits(fs[..|fs| - 1], fs[|fs| - 1].segment.order))
  }

  /** Well ordered means that every field is admitted by the fields before
      it. */
  lemma WellOrderedEvery(fs: seq<PropCache>)
    ensures WellOrdered(fs) <==> forall i :: 0 <= i < |fs| ==> Admits(fs[..i], fs[i].segment.order)
  {
    if WellOrdered(fs) {
      WellOrderedAdmitsEach(fs);
    }
    if forall i :: 0 <= i < |fs| ==> Admits(fs[..i], fs[i].segment.order) {
      EachAdmittedWellOrdered(fs);
    }
  }

  /** A well-ordered list admits each of its fields. */
  lemma {:induction false} WellOrderedAdmitsEach(fs: seq<PropCache>)
    requires WellOrdered(fs)
    ensures forall i :: 0 <= i < |fs| ==> Admits(fs[..i], fs[i].segment.order)
  {
    if fs != [] {
      var n := |fs| - 1;
      var prev := fs[..n];
      assert WellOrdered(prev) && Admits(prev, fs[n].segment.order);
      WellOrderedAdmitsEach(prev);
      forall i | 0 <= i < |fs|
        ensures Admits(fs[..i], fs[i].segment.order)
      {
        if i < n {
          PrefixAdmits(fs, n, i);
        } else {
          assert fs[..i] == prev && fs[i] == fs[n];
        }
      }
    }
  }

  /** A field admitted inside the prefix `fs[..n]` is admitted in `fs`. */
  lemma PrefixAdmits(fs: seq<PropCache>, n: nat, i: nat)
    requires i < n <= |fs| && Admits(fs[..n][..i], fs[..n][i].segment.order)
    ensures Admits(fs[..i], fs[i].segment.order)
  {
    assert fs[..n][..i] == fs[..i];
  }

  /** A list that admits each of its fields is well ordered. */
  lemma {:induction false} EachAdmittedWellOrdered(fs: seq<PropCache>)
    requires forall i :: 0 <= i < |fs| ==> Admits(fs[..i], fs[i].segment.order)
    ensures WellOrdered(fs)
  {
    if fs != [] {
      var n := |fs| - 1;
      var prev := fs[..n];
      forall i | 0 <= i < n
        ensures Admits(prev[..i], prev[i].segment.order)
      {
        assert prev[..i] == fs[..i] && prev[i] == fs[i];
      }
      EachAdmittedWellOrdered(prev);
    }
  }

  // ---------------------------------------------------------------------
  // CacheProperties
  // ---------------------------------------------------------------------

  /** The loop of `CacheProperties`: walks the properties, skips those without
      a `Segment` attribute, rejects a duplicate order and an order whose
      32-bit predecessor is above `maxKey`, and collects the rest. Both
      rejections are `ArgumentException`s. */
  method BuildPropertyList(props: seq<Property>) returns (r: Result<seq<PropCache>>)
    ensures r.Success? <==> WellOrdered(Attributed(props))
    ensures r.Success? ==> r.value == Attributed(props)
    ensures r.Failure? ==> r.error == ArgumentError
  {
    var seenOrder: map<int, string> := map[];
    var maxKey := 0;
    var list: seq<PropCache> := [];
    for i := 0 to |props|
      invariant Scanned(props[..i], list, seenOrder, maxKey)
    {
      var prop := props[i];
      if prop.segment.None? {
        SkipStep(props, i, list, seenOrder, maxKey);
        continue;
      }
      var custom := prop.segment.value;
      if custom.order in seenOrder {
        DuplicateStep(props[..i], prop, list, seenOrder, maxKey);
        Rejected(props, i);
        return Failure(ArgumentError);
      }
      // `seenOrder.Max(x => x.Key)` once an order has been seen: the keys are
      // the orders of `list`.
      var previous := maxKey;
      maxKey := if seenOrder.Keys != {} then MaxKey(list) else maxKey;
      CurrentMaxKey(props[..i], list, seenOrder, previous, maxKey);
      if maxKey < OrderPred(custom.order) {
        Rejected(props, i);
        return Failure(ArgumentError);
      }
      AcceptStep(props, i, list, seenOrder, maxKey);
      seenOrder := seenOrder[custom.order := prop.name];
      list := list + [PropCache(prop.name, custom)];
    }
    assert props[..|props|] == props;
    r := Success(list);
  }

  /** The state of the loop after the properties `done`. */
  ghost predicate Scanned(done: seq<Property>, list: seq<PropCache>, seenOrder: map<int, string>, maxKey: int) {
    list == Attributed(done) && WellOrdered(list) && seenOrder.Keys == OrderSet(list) &&
    (list == [] ==> maxKey == 0)
  }

  /** A property without attribute leaves the state as it is. */
  lemma SkipStep(props: seq<Property>, i: nat, list: seq<PropCache>, seenOrder: map<int, string>, maxKey: int)
    requires i < |props| && props[i].segment.None?
    requires Scanned(props[..i], list, seenOrder, maxKey)
    ensures Scanned(props[..i + 1], list, seenOrder, maxKey)
  {
    AttributedSnoc(props, i);
    assert list + [] == list;
  }

  /** A repeated order is one the list does not admit. */
  lemma DuplicateStep(done: seq<Property>, prop: Property, list: seq<PropCache>, seenOrder: map<int, string>, maxKey: int)
    requires Scanned(done, list, seenOrder, maxKey) && prop.segment.Some?
    requires prop.segment.value.order in seenOrder
    ensures !Admits(Attributed(done), prop.segment.value.order)
  {
  }

  /** After the update of `maxKey` it is the largest order of the list. */
  lemma CurrentMaxKey(done: seq<Property>, list: seq<PropCache>, seenOrder: map<int, string>, previous: int, maxKey: int)
    requires Scanned(done, list, seenOrder, previous)
    requires maxKey == if seenOrder.Keys != {} then MaxKey(list) else previous
    ensures maxKey == MaxKey(list)
  {
    if list != [] {
      assert MaxKey(list) in seenOrder.Keys;
    }
  }

  /** An admitted field extends the state by one order. */
  lemma AcceptStep(props: seq<Property>, i: nat, list: seq<PropCache>, seenOrder: map<int, string>, maxKey: int)
    requires i < |props| && props[i].segment.Some?
    requires Scanned(props[..i], list, seenOrder, maxKey)
    requires props[i].segment.value.order !in seenOrder && maxKey == MaxKey(list)
    requires !(maxKey < OrderPred(props[i].segment.value.order))
    ensures Scanned(props[..i + 1], list + [PropCache(props[i].name, props[i].segment.value)],
      seenOrder[props[i].segment.value.order := props[i].name], maxKey)
  {
    var f := PropCache(props[i].name, props[i].segment.value);
    AttributedSnoc(props, i);
    WellOrderedSnoc(list, f);
    SnocFacts(list, f);
  }

  /** Adding one property extends the attributed list by at most its field. */
  lemma AttributedSnoc(props: seq<Property>, i: nat)
    requires i < |props|
    ensures Attributed(props[..i + 1]) == Attributed(props[..i]) +
      (if props[i].segment.Some? then [PropCache(props[i].name, props[i].segment.value)] else [])
  {
    assert props[..i + 1][..i] == props[..i];
  }

  /** The attributed fields of two runs of properties, one after the other. */
  lemma {:induction false} AttributedAppend(a: seq<Property>, b: seq<Property>)
    ensures Attributed(a + b) == Attributed(a) + Attributed(b)
  {
    if b != [] {
      var b' := b[..|b| - 1];
      var last := b[|b| - 1];
      var tail := if last.segment.Some? then [PropCache(last.name, last.segment.value)] else [];
      assert (a + b)[..|a + b| - 1] == a + b';
      assert (a + b)[|a + b| - 1] == last;
      AttributedAppend(a, b');
      assert Attributed(a + b) == Attributed(a + b') + tail;
      assert Attributed(b) == Attributed(b') + tail;
    } else {
      assert a + b == a;
    }
  }

  /** Property `i` holds the first field a check rejects, so the whole list is
      not well ordered. */
  lemma Rejected(props: seq<Property>, i: nat)
    requires i < |props| && props[i].segment.Some?
    requires !Admits(Attributed(props[..i]), props[i].segment.value.order)
    ensures !WellOrdered(Attributed(props))
  {
    var f := PropCache(props[i].name, props[i].segment.value);
    var pre := Attributed(props[..i]);
    AttributedSnoc(props, i);
    assert props == props[..i + 1] + props[i + 1..];
    AttributedAppend(props[..i + 1], props[i + 1..]);
    var head := pre + [f];
    var all := Attributed(props);
    assert all[..|head|] == head;
    if WellOrdered(all) {
      WellOrderedPrefix(all, |head|);
    }
  }

  /** A field the list admits keeps it well ordered. */
  lemma WellOrderedSnoc(fs: seq<PropCache>, f: PropCache)
    requires WellOrdered(fs) && Admits(fs, f.segment.order)
    ensures WellOrdered(fs + [f])
  {
    assert (fs + [f])[..|fs|] == fs;
  }

  /** Every prefix of a well-ordered list is well ordered. */
  lemma {:induction false} WellOrderedPrefix(fs: seq<PropCache>, n: nat)
    requires WellOrdered(fs) && n <= |fs|
    ensures WellOrdered(fs[..n])
  {
    if n < |fs| {
      var prev := fs[..|fs| - 1];
      WellOrderedPrefix(prev, n);
      assert prev[..n] == fs[..n];
    } else {
      assert fs[..n] == fs;
    }
  }

  /** A well-ordered list never declares the same order twice. */
  lemma WellOrderedDistinct(fs: seq<PropCache>)
    requires WellOrdered(fs)
    ensures forall i, j :: 0 <= i < j < |fs| ==> fs[i].segment.order != fs[j].segment.order
  {
    WellOrderedEvery(fs);
    forall i, j | 0 <= i < j < |fs|
      ensures fs[i].segment.order != fs[j].segment.order
    {
      assert Admits(fs[..j], fs[j].segment.order);
      assert fs[..j][i] == fs[i];
      OrderOf(fs[..j], i);
    }
  }

  /** In a well-ordered list the positive orders are exactly 1 to `maxKey`:
      no gap and no duplicate. */
  lemma {:induction false} WellOrderedContiguous(fs: seq<PropCache>)
    requires WellOrdered(fs)
    ensures forall p :: p > 0 ==> (p in OrderSet(fs) <==> p <= MaxKey(fs))
  {
    if fs != [] {
      var n := |fs| - 1;
      var prev := fs[..n];
      var f := fs[n];
      assert fs == prev + [f];
      WellOrderedPrefix(fs, n);
      WellOrderedContiguous(prev);
      assert Admits(prev, f.segment.order);
      ContiguousSnoc(prev, f);
    }
  }

  /** An admitted field keeps the positive orders contiguous. */
  lemma ContiguousSnoc(prev: seq<PropCache>, f: PropCache)
    requires forall p :: p > 0 ==> (p in OrderSet(prev) <==> p <= MaxKey(prev))
    requires Admits(prev, f.segment.order)
    ensures forall p :: p > 0 ==> (p in OrderSet(prev + [f]) <==> p <= MaxKey(prev + [f]))
  {
    SnocFacts(prev, f);
    var o := f.segment.order;
    forall p | p > 0
      ensures p in OrderSet(prev + [f]) <==> p <= MaxKey(prev + [f])
    {
      if prev == [] {
        assert MaxKey(prev + [f]) == o && o <= 1;
      } else {
        assert MaxKey(prev + [f]) == Max(MaxKey(prev), o) && o <= MaxKey(prev) + 1;
      }
    }
  }

  /** When every order is positive, a list is well ordered exactly when its
      orders are 1, 2, 3, ... in enumeration order. */
  lemma {:induction false} PositiveWellOrdered(fs: seq<PropCache>)
    requires forall i :: 0 <= i < |fs| ==> fs[i].segment.order > 0
    ensures WellOrdered(fs) <==> forall i :: 0 <= i < |fs| ==> fs[i].segment.order == i + 1
  {
    if fs != [] {
      var n := |fs| - 1;
      var prev := fs[..n];
      var f := fs[n];
      assert fs == prev + [f];
      assert forall i :: 0 <= i < n ==> prev[i] == fs[i];
      PositiveWellOrdered(prev);
      if WellOrdered(fs) {
        WellOrderedPrefix(fs, n);
        assert Admits(prev, f.segment.order);
        CountedOrders(prev);
      }
      if forall i :: 0 <= i < |fs| ==> fs[i].segment.order == i + 1 {
        CountedOrders(prev);
        assert Admits(prev, f.segment.order);
        WellOrderedSnoc(prev, f);
      }
    }
  }

  /** A list ordered 1, 2, ..., n declares exactly the orders 1 to n. */
  lemma {:induction false} CountedOrders(fs: seq<PropCache>)
    requires forall i :: 0 <= i < |fs| ==> fs[i].segment.order == i + 1
    ensures MaxKey(fs) == |fs|
    ensures forall p :: p in OrderSet(fs) <==> 1 <= p <= |fs|
  {
    if fs != [] {
      var n := |fs| - 1;
      var prev := fs[..n];
      assert fs == prev + [fs[n]];
      CountedOrders(prev);
      SnocFacts(prev, fs[n]);
    }
  }

  // ---------------------------------------------------------------------
  // CheckValue
  // ---------------------------------------------------------------------

  /** `CheckValue`: true when none of its guards throws. An empty value of an
      optional field passes; otherwise inverted bounds are rejected (the code
      tests max < min and min > max, the same condition twice), then a value
      shorter than the minimum and a value longer than the maximum. */
  function CheckValue(value: string, seg: SegmentAttribute): (ok: bool)
    ensures ok <==>
      (seg.optional && value == []) ||
      (LengthsInRange(|value|, seg) &&
       !(seg.minLength.Some? && seg.maxLength.Some? && seg.maxLength.value < seg.minLength.value))
  {
    if seg.optional && value == [] then true
    else if seg.minLength.Some? && seg.maxLength.Some? && seg.maxLength.value < seg.minLength.value then false
    else if seg.minLength.Some? && seg.maxLength.Some? && seg.minLength.value > seg.maxLength.value then false
    else if seg.minLength.Some? && |value| < seg.minLength.value then false
    else if seg.maxLength.Some? && |value| > seg.maxLength.value then false
    else true
  }

  /** A length within whichever bounds are present. */
  predicate LengthsInRange(len: nat, seg: SegmentAttribute) {
    (seg.minLength.None? || len >= seg.minLength.value) &&
    (seg.maxLength.None? || len <= seg.maxLength.value)
  }

  /** The inverted-bounds guards never change the verdict: no length lies
      within bounds whose maximum is below their minimum, so the length
      checks alone would reject the same values. */
  lemma InvertedBoundsGuardRedundant(value: string, seg: SegmentAttribute)
    ensures CheckValue(value, seg) <==> (seg.optional && value == []) || LengthsInRange(|value|, seg)
  {
  }

  // ---------------------------------------------------------------------
  // Examples
  // ---------------------------------------------------------------------

  function Plain(order: Int32): SegmentAttribute {
    SegmentAttribute(order, false, None, None)
  }

  /** An order `o` is admitted when it is new and `o - 1` is at most
      `maxKey`, so orders from `int.MinValue + 1` to 0 pass while `maxKey` is
      at least -1. */
  lemma NonPositiveOrdersAccepted()
    ensures WellOrdered([PropCache("Z", Plain(0)), PropCache("A", Plain(1)), PropCache("N", Plain(-3))])
  {
    var z, a, n := PropCache("Z", Plain(0)), PropCache("A", Plain(1)), PropCache("N", Plain(-3));
    SnocFacts([], z);
    assert [] + [z] == [z];
    WellOrderedSnoc([], z);
    SnocFacts([z], a);
    WellOrderedSnoc([z], a);
    assert [z] + [a] == [z, a];
    SnocFacts([z, a], n);
    WellOrderedSnoc([z, a], n);
    assert [z, a] + [n] == [z, a, n];
  }

  /** Once order 1 is seen, a negative order leaves `maxKey` at 1, so order 0
      still passes after -5. */
  lemma NegativeAfterOneHarmless()
    ensures WellOrdered([PropCache("A", Plain(1)), PropCache("N", Plain(-5)), PropCache("Z", Plain(0))])
  {
    var a, n, z := PropCache("A", Plain(1)), PropCache("N", Plain(-5)), PropCache("Z", Plain(0));
    SnocFacts([], a);
    assert [] + [a] == [a];
    WellOrderedSnoc([], a);
    SnocFacts([a], n);
    WellOrderedSnoc([a], n);
    assert [a] + [n] == [a, n];
    SnocFacts([a, n], z);
    WellOrderedSnoc([a, n], z);
    assert [a, n] + [z] == [a, n, z];
  }

  /** A negative first order lowers `maxKey`: after -5, order 0 is a gap. */
  lemma NegativeOrderLowersBar()
    ensures !WellOrdered([PropCache("N", Plain(-5)), PropCache("Z", Plain(0))])
  {
    var n, z := PropCache("N", Plain(-5)), PropCache("Z", Plain(0));
    SnocFacts([], n);
    assert [] + [n] == [n];
    assert [n, z][..1] == [n];
  }

  /** The least order wraps: `int.MinValue - 1` is `int.MaxValue`, so a
      first field of order `int.MinValue` is a gap. */
  lemma MinOrderRejected()
    ensures !WellOrdered([PropCache("M", Plain(Int32Min))])
  {
    assert [PropCache("M", Plain(Int32Min))][..0] == [];
  }

  /** Order `int.MinValue` is admitted only after an order `int.MaxValue`. */
  lemma MinOrderNeedsMax(prev: seq<PropCache>)
    ensures Admits(prev, Int32Min) <==> Int32Min !in OrderSet(prev) && MaxKey(prev) == Int32Max
  {
    if prev != [] {
      OrderSetMembers(prev, MaxKey(prev));
    }
  }

  /** Orders 1, 2 and 4 leave a gap at 3 and are rejected there. */
  lemma GapRejected()
    ensures !WellOrdered([PropCache("A", Plain(1)), PropCache("B", Plain(2)), PropCache("D", Plain(4))])
  {
    var fs := [PropCache("A", Plain(1)), PropCache("B", Plain(2)), PropCache("D", Plain(4))];
    assert fs[..2] == [PropCache("A", Plain(1)), PropCache("B", Plain(2))];
    assert fs[..2][..1] == [PropCache("A", Plain(1))];
    assert MaxKey(fs[..2]) == 2;
    assert !Admits(fs[..2], fs[2].segment.order);
  }

  /** Two fields at order 2 are rejected at the second. */
  lemma DuplicateRejected()
    ensures !WellOrdered([PropCache("A", Plain(1)), PropCache("B", Plain(2)), PropCache("C", Plain(2))])
  {
    var fs := [PropCache("A", Plain(1)), PropCache("B", Plain(2)), PropCache("C", Plain(2))];
    OrderOf(fs[..2], 1);
    assert !Admits(fs[..2], fs[2].segment.order);
  }

  /** An unattributed property is skipped. */
  lemma SkipUnattributed()
    ensures Attributed([Property("A", Some(Plain(1))), Property("Raw", None),
                        Property("B", Some(Plain(2))), Property("C", Some(Plain(3)))]) ==
      [PropCache("A", Plain(1)), PropCache("B", Plain(2)), PropCache("C", Plain(3))]
  {
    var props := [Property("A", Some(Plain(1))), Property("Raw", None),
                  Property("B", Some(Plain(2))), Property("C", Some(Plain(3)))];
    assert props[..1] == [props[0]];
    assert props[..1][..0] == [];
    assert Attributed(props[..1]) == [PropCache("A", Plain(1))];
    assert props[..2][..1] == props[..1];
    assert Attributed(props[..2]) == [PropCache("A", Plain(1))];
    assert props[..3][..2] == props[..2];
    assert Attributed(props[..3]) == [PropCache("A", Plain(1)), PropCache("B", Plain(2))];
    assert props[..3] == props[..|props| - 1];
  }

  /** Orders 1 to 3 are accepted. */
  lemma RunAccepted()
    ensures WellOrdered([PropCache("A", Plain(1)), PropCache("B", Plain(2)), PropCache("C", Plain(3))])
  {
    PositiveWellOrdered([PropCache("A", Plain(1)), PropCache("B", Plain(2)), PropCache("C", Plain(3))]);
  }

  /** An optional field with minimum length 2 accepts an empty value; a
      mandatory one rejects it. */
  lemma EmptyValueExamples()
    ensures CheckValue("", SegmentAttribute(1, true, Some(2), None))
    ensures !CheckValue("", SegmentAttribute(1, false, Some(2), None))
    ensures !CheckValue("A", SegmentAttribute(1, true, Some(2), None))
  {
  }
}

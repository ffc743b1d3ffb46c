/** Segment decoding: splits one segment line into tokens, looks the segment
    code up in the registry of record types, and fills the record's fields by
    position from the cached, order-checked field list. */
module Factory {
  import opened Wrappers
  import opened Text
  import opened Separators
  import opened Schema

  /** A decoded segment: `RecordType`, `SegmentIndex` and the values of the
      attributed properties by name. `None` is a property the decoder does not
      set, which keeps its initial value (null when it has no initialiser). */
  datatype X12 = X12(recordType: string, segmentIndex: int, fields: map<string, Option<string>>)

  /** No two fields share a name (as the properties of one type do not). */
  predicate DistinctNames(pc: seq<PropCache>) {
    forall i, j :: 0 <= i < j < |pc| ==> pc[i].name != pc[j].name
  }

  /** No two properties share a name. */
  predicate DistinctPropertyNames(props: seq<Property>) {
    forall i, j :: 0 <= i < j < |props| ==> props[i].name != props[j].name
  }

  /** `pc.FirstOrDefault(x => x.Segment.Order == o)`, as the position of the
      field found. */
  function FindByOrder(pc: seq<PropCache>, o: int): (r: Option<nat>)
    ensures r.Some? ==> r.value < |pc| && pc[r.value].segment.order == o
    ensures r.Some? ==> forall k :: 0 <= k < r.value ==> pc[k].segment.order != o
    ensures r.None? ==> forall k :: 0 <= k < |pc| ==> pc[k].segment.order != o
  {
    FindFrom(pc, o, 0)
  }

  /** The first field of order `o` at or after `start`. */
  function FindFrom(pc: seq<PropCache>, o: int, start: nat): (r: Option<nat>)
    requires start <= |pc|
    decreases |pc| - start
    ensures r.Some? ==> start <= r.value < |pc| && pc[r.value].segment.order == o
    ensures r.Some? ==> forall k :: start <= k < r.value ==> pc[k].segment.order != o
    ensures r.None? ==> forall k :: start <= k < |pc| ==> pc[k].segment.order != o
  {
    if start == |pc| then None
    else if pc[start].segment.order == o then Some(start)
    else FindFrom(pc, o, start + 1)
  }

  /** The first position from `i` on, below `n`, that no field claims by its
      order; `n` when there is none. */
  function FirstGap(pc: seq<PropCache>, n: nat, i: nat): (j: nat)
    requires i <= n
    decreases n - i
    ensures i <= j <= n
    ensures forall k :: i <= k < j ==> FindByOrder(pc, k).Some?
    ensures j < n ==> FindByOrder(pc, j).None?
  {
    if i == n || FindByOrder(pc, i).None? then i else FirstGap(pc, n, i + 1)
  }

  /** The value field `x` ends up with when tokens 1 to `j - 1` have been
      assigned: its token if its order was reached and it is the field found
      for that order; otherwise "" if it is optional and null if not. */
  function FieldValue(pc: seq<PropCache>, tokens: seq<string>, j: nat, x: nat): (r: Option<string>)
    requires j <= |tokens| && x < |pc|
    ensures r.None? ==> !pc[x].segment.optional
    ensures r.Some? && !pc[x].segment.optional ==>
      1 <= pc[x].segment.order < j && r.value == tokens[pc[x].segment.order]
  {
    var o := pc[x].segment.order;
    if 1 <= o < j && FindByOrder(pc, o) == Some(x) then Some(tokens[o])
    else if pc[x].segment.optional then Some("")
    else None
  }

  /** The record's values, field by field. */
  function FieldValues(pc: seq<PropCache>, tokens: seq<string>, j: nat): (vs: seq<Option<string>>)
    requires j <= |tokens|
    ensures |vs| == |pc|
  {
    seq(|pc|, x requires 0 <= x < |pc| => FieldValue(pc, tokens, j, x))
  }

  /** The record's fields by name. */
  function ToRecord(pc: seq<PropCache>, vals: seq<Option<string>>): (m: map<string, Option<string>>)
    requires DistinctNames(pc) && |vals| == |pc|
    ensures forall x :: 0 <= x < |pc| ==> pc[x].name in m && m[pc[x].name] == vals[x]
    ensures forall n :: n in m ==> exists x :: 0 <= x < |pc| && pc[x].name == n
  {
    map x | 0 <= x < |pc| :: pc[x].name := vals[x]
  }

  /** A token that fails `CheckValue` among those assigned. */
  predicate SomeValueRejected(pc: seq<PropCache>, tokens: seq<string>, j: nat)
    requires j <= |tokens|
    requires forall k :: 1 <= k < j ==> FindByOrder(pc, k).Some?
  {
    exists k :: 1 <= k < j && !CheckValue(tokens[k], pc[FindByOrder(pc, k).value].segment)
  }

  /** The record the two loops of `GetX12Item` fill, or the error a value
      check raises. */
  function Populate(pc: seq<PropCache>, tokens: seq<string>, dataChecks: bool): (r: Result<map<string, Option<string>>>)
    requires DistinctNames(pc) && |tokens| >= 1
    ensures r.Failure? ==> dataChecks && r.error == ArgumentError
    ensures r.Success? ==> forall x :: 0 <= x < |pc| ==> pc[x].name in r.value
    ensures r.Success? ==> forall n :: n in r.value ==> exists x :: 0 <= x < |pc| && pc[x].name == n
  {
    var j := FirstGap(pc, |tokens|, 1);
    if dataChecks && SomeValueRejected(pc, tokens, j) then Failure(ArgumentError)
    else Success(ToRecord(pc, FieldValues(pc, tokens, j)))
  }

  /** A known segment decoded against its field list: the bounds check, then
      the fields. */
  function Decode(code: string, index: int, pc: seq<PropCache>, tokens: seq<string>,
                  dataChecks: bool, boundsChecks: bool): (r: Result<X12>)
    requires DistinctNames(pc) && |tokens| >= 1
    ensures r.Success? ==> r.value.recordType == code && r.value.segmentIndex == index
    ensures r == Failure(FormatError) <==> boundsChecks && |tokens| > |pc|
  {
    if boundsChecks && |tokens| > |pc| then Failure(FormatError)
    else
      match Populate(pc, tokens, dataChecks)
      case Failure(e) => Failure(e)
      case Success(fields) => Success(X12(code, index, fields))
  }

  /** The two loops of `GetX12Item`, on a fresh record whose properties are
      all null: every optional field is blanked to "", then token `i` goes to
      the field whose order is `i`, from 1 until a token has no field, with
      each value checked when `dataChecks` is set. `vals[x]` is the value of
      the property of `pc[x]`. */
  method PopulateRecord(pc: seq<PropCache>, tokens: seq<string>, dataChecks: bool)
    returns (r: Result<map<string, Option<string>>>)
    requires DistinctNames(pc) && |tokens| >= 1
    ensures r == Populate(pc, tokens, dataChecks)
  {
    var vals: seq<Option<string>> := seq(|pc|, x => None);
    for k := 0 to |pc|
      invariant |vals| == |pc|
      invariant forall x :: 0 <= x < |pc| ==>
        vals[x] == if x < k && pc[x].segment.optional then Some("") else None
    {
      if !pc[k].segment.optional {
        continue;
      }
      vals := vals[k := Some("")];
    }
    var i := 1;
    while i < |tokens|
      invariant 1 <= i <= |tokens|
      invariant forall k :: 1 <= k < i ==> FindByOrder(pc, k).Some?
      invariant dataChecks ==> forall k :: 1 <= k < i ==> CheckValue(tokens[k], pc[FindByOrder(pc, k).value].segment)
      invariant |vals| == |pc|
      invariant forall x :: 0 <= x < |pc| ==> vals[x] == FieldValue(pc, tokens, i, x)
    {
      var prop := FindByOrder(pc, i);
      if prop.None? {
        break;
      }
      var value := tokens[i];
      if dataChecks && !CheckValue(value, pc[prop.value].segment) {
        GapAfter(pc, tokens, i);
        return Failure(ArgumentError);
      }
      vals := vals[prop.value := Some(value)];
      i := i + 1;
    }
    GapAt(pc, tokens, i);
    assert vals == FieldValues(pc, tokens, i);
    r := Success(ToRecord(pc, vals));
  }

  /** Where the assignment loop stops: at `i` when every token before it had a
      field and token `i` has none or is past the end. */
  lemma GapAt(pc: seq<PropCache>, tokens: seq<string>, i: nat)
    requires 1 <= i <= |tokens|
    requires forall k :: 1 <= k < i ==> FindByOrder(pc, k).Some?
    requires i < |tokens| ==> FindByOrder(pc, i).None?
    ensures FirstGap(pc, |tokens|, 1) == i
  {
  }

  /** A token with a field lies before the stopping point. */
  lemma GapAfter(pc: seq<PropCache>, tokens: seq<string>, i: nat)
    requires 1 <= i < |tokens|
    requires forall k :: 1 <= k <= i ==> FindByOrder(pc, k).Some?
    ensures i < FirstGap(pc, |tokens|, 1)
  {
  }

  // ---------------------------------------------------------------------
  // Properties of decoding
  // ---------------------------------------------------------------------

  /** Every field of the attributed list is named after one of the
      properties. */
  lemma {:induction false} AttributedNames(props: seq<Property>)
    ensures forall i :: 0 <= i < |Attributed(props)| ==>
      exists j :: 0 <= j < |props| && props[j].name == Attributed(props)[i].name
  {
    if props != [] {
      var init := props[..|props| - 1];
      AttributedNames(init);
      assert Attributed(props) == Attributed(init) +
        (if props[|props| - 1].segment.Some? then [PropCache(props[|props| - 1].name, props[|props| - 1].segment.value)] else []);
      forall i | 0 <= i < |Attributed(props)|
        ensures exists j :: 0 <= j < |props| && props[j].name == Attributed(props)[i].name
      {
        if i < |Attributed(init)| {
          var j :| 0 <= j < |init| && init[j].name == Attributed(init)[i].name;
          assert props[j] == init[j];
        } else {
          assert props[|props| - 1].name == Attributed(props)[i].name;
        }
      }
    } else {
      assert Attributed(props) == [];
    }
  }

  /** Distinct property names give distinct field names. */
  lemma {:induction false} AttributedDistinct(props: seq<Property>)
    requires DistinctPropertyNames(props)
    ensures DistinctNames(Attributed(props))
  {
    if props != [] {
      var init := props[..|props| - 1];
      assert DistinctPropertyNames(init) by {
        forall i, j | 0 <= i < j < |init| ensures init[i].name != init[j].name {
          assert init[i] == props[i] && init[j] == props[j];
        }
      }
      AttributedDistinct(init);
      AttributedNames(init);
      var a := Attributed(props);
      forall i, j | 0 <= i < j < |a| ensures a[i].name != a[j].name {
        if j >= |Attributed(init)| {
          var k :| 0 <= k < |init| && init[k].name == Attributed(init)[i].name;
          assert props[k] == init[k];
        }
      }
    }
  }

  /** The assignment loop run over a prefix of the tokens that ends at the
      first gap stops at the end of that prefix. */
  lemma {:induction false} FirstGapPrefix(pc: seq<PropCache>, j: nat, i: nat)
    requires i <= j
    requires forall k :: i <= k < j ==> FindByOrder(pc, k).Some?
    ensures FirstGap(pc, j, i) == j
    decreases j - i
  {
    if i < j {
      FirstGapPrefix(pc, j, i + 1);
    }
  }

  /** Unless the bounds check rejects them, only the tokens before the first
      one that no field claims matter: the loop breaks there. */
  lemma ExcessTokensIgnored(code: string, index: int, pc: seq<PropCache>, tokens: seq<string>,
                            dataChecks: bool)
    requires DistinctNames(pc) && |tokens| >= 1
    ensures Decode(code, index, pc, tokens, dataChecks, false) ==
            Decode(code, index, pc, tokens[..FirstGap(pc, |tokens|, 1)], dataChecks, false)
  {
    var j := FirstGap(pc, |tokens|, 1);
    var prefix := tokens[..j];
    FirstGapPrefix(pc, j, 1);
    assert FieldValues(pc, prefix, j) == FieldValues(pc, tokens, j);
    assert SomeValueRejected(pc, prefix, j) == SomeValueRejected(pc, tokens, j);
  }

  /** Fields whose orders run 1, 2, ... in list order. */
  predicate Positional(pc: seq<PropCache>) {
    forall i :: 0 <= i < |pc| ==> pc[i].segment.order == i + 1
  }

  /** With positional orders, token `k` belongs to field `k - 1`. */
  lemma FindPositional(pc: seq<PropCache>, k: int)
    requires Positional(pc)
    ensures FindByOrder(pc, k) == if 1 <= k <= |pc| then Some(k - 1) else None
  {
    if 1 <= k <= |pc| {
      assert pc[k - 1].segment.order == k;
    }
  }

  /** With positional orders, the assignment loop runs over every token that
      has a field. */
  lemma {:induction false} FirstGapPositional(pc: seq<PropCache>, n: nat, i: nat)
    requires Positional(pc) && 1 <= i <= n
    requires i <= |pc| + 1
    ensures FirstGap(pc, n, i) == if n < |pc| + 1 then n else |pc| + 1
    decreases n - i
  {
    FindPositional(pc, i);
    if i < n && i <= |pc| {
      FirstGapPositional(pc, n, i + 1);
    }
  }

  /** The value of field `x` under positional decoding. */
  function PositionalValue(pc: seq<PropCache>, tokens: seq<string>, x: nat): Option<string>
    requires x < |pc|
  {
    if x + 1 < |tokens| then Some(tokens[x + 1])
    else if pc[x].segment.optional then Some("")
    else None
  }

  /** Under positional orders the loop stops at the first token past the
      last field, and every token before that belongs to the field before
      it. */
  lemma PositionalGap(pc: seq<PropCache>, tokens: seq<string>)
    requires Positional(pc) && |tokens| >= 1
    ensures FirstGap(pc, |tokens|, 1) == if |tokens| < |pc| + 1 then |tokens| else |pc| + 1
    ensures forall k :: 1 <= k < FirstGap(pc, |tokens|, 1) ==> FindByOrder(pc, k) == Some(k - 1)
  {
    FirstGapPositional(pc, |tokens|, 1);
    forall k | 1 <= k < FirstGap(pc, |tokens|, 1) ensures FindByOrder(pc, k) == Some(k - 1) {
      FindPositional(pc, k);
    }
  }

  /** Under positional orders every field gets its positional value. */
  lemma PositionalValues(pc: seq<PropCache>, tokens: seq<string>)
    requires Positional(pc) && |tokens| >= 1
    ensures FirstGap(pc, |tokens|, 1) <= |tokens|
    ensures FieldValues(pc, tokens, FirstGap(pc, |tokens|, 1)) ==
      seq(|pc|, x requires 0 <= x < |pc| => PositionalValue(pc, tokens, x))
  {
    PositionalGap(pc, tokens);
    var j := FirstGap(pc, |tokens|, 1);
    forall x | 0 <= x < |pc| ensures FieldValue(pc, tokens, j, x) == PositionalValue(pc, tokens, x) {
      PositionalFieldValue(pc, tokens, x);
    }
  }

  /** Field `x` gets its positional value. */
  lemma PositionalFieldValue(pc: seq<PropCache>, tokens: seq<string>, x: nat)
    requires Positional(pc) && |tokens| >= 1 && x < |pc|
    ensures FirstGap(pc, |tokens|, 1) <= |tokens|
    ensures FieldValue(pc, tokens, FirstGap(pc, |tokens|, 1), x) == PositionalValue(pc, tokens, x)
  {
    PositionalGap(pc, tokens);
    FindPositional(pc, x + 1);
    assert pc[x].segment.order == x + 1;
  }

  /** Under positional orders a value check fails exactly when some token
      with a field fails the check of the field before it. */
  predicate PositionalRejected(pc: seq<PropCache>, tokens: seq<string>) {
    exists k :: 1 <= k < |tokens| && k <= |pc| && !CheckValue(tokens[k], pc[k - 1].segment)
  }

  lemma PositionalChecks(pc: seq<PropCache>, tokens: seq<string>)
    requires Positional(pc) && |tokens| >= 1
    ensures FirstGap(pc, |tokens|, 1) <= |tokens|
    ensures SomeValueRejected(pc, tokens, FirstGap(pc, |tokens|, 1)) <==> PositionalRejected(pc, tokens)
  {
    PositionalGap(pc, tokens);
    var j := FirstGap(pc, |tokens|, 1);
    if PositionalRejected(pc, tokens) {
      var k :| 1 <= k < |tokens| && k <= |pc| && !CheckValue(tokens[k], pc[k - 1].segment);
      assert k < j && FindByOrder(pc, k) == Some(k - 1);
    }
  }

  /** Positional decoding: field `x` gets token `x + 1` when there is one, a
      missing optional field is "", a missing mandatory one null, and the
      value checks fail exactly when a token assigned fails its field's
      check. */
  lemma PositionalDecode(code: string, index: int, pc: seq<PropCache>, tokens: seq<string>,
                         dataChecks: bool, boundsChecks: bool)
    requires DistinctNames(pc) && Positional(pc) && |tokens| >= 1
    requires !(boundsChecks && |tokens| > |pc|)
    ensures Decode(code, index, pc, tokens, dataChecks, boundsChecks) ==
      if dataChecks && PositionalRejected(pc, tokens) then Failure(ArgumentError)
      else Success(X12(code, index, ToRecord(pc, seq(|pc|, x requires 0 <= x < |pc| => PositionalValue(pc, tokens, x)))))
  {
    PositionalValues(pc, tokens);
    PositionalChecks(pc, tokens);
  }

  /** Positional decoding field by field: when no check fails, the record
      holds every field, each with its positional value. */
  lemma PositionalFields(code: string, index: int, pc: seq<PropCache>, tokens: seq<string>,
                         dataChecks: bool, boundsChecks: bool)
    requires DistinctNames(pc) && Positional(pc) && |tokens| >= 1
    requires !(boundsChecks && |tokens| > |pc|)
    requires !(dataChecks && PositionalRejected(pc, tokens))
    ensures Decode(code, index, pc, tokens, dataChecks, boundsChecks).Success?
    ensures forall x :: 0 <= x < |pc| ==>
      var fields := Decode(code, index, pc, tokens, dataChecks, boundsChecks).value.fields;
      pc[x].name in fields && fields[pc[x].name] == PositionalValue(pc, tokens, x)
  {
    PositionalDecode(code, index, pc, tokens, dataChecks, boundsChecks);
  }

  /** Values joined with the element separator decode back to the same
      values, field by field, when no check fails. */
  lemma EncodeDecode(code: string, index: int, pc: seq<PropCache>, vs: seq<string>, c: char,
                     dataChecks: bool)
    requires DistinctNames(pc) && Positional(pc) && |vs| == |pc|
    requires NoSeparator(code, {c}) && forall x :: 0 <= x < |vs| ==> NoSeparator(vs[x], {c})
    requires dataChecks ==> forall x :: 0 <= x < |vs| ==> CheckValue(vs[x], pc[x].segment)
    ensures Decode(code, index, pc, Split(Join([code] + vs, c), {c}), dataChecks, false) ==
      Success(X12(code, index, ToRecord(pc, seq(|vs|, x requires 0 <= x < |vs| => Some(vs[x])))))
  {
    var tokens := [code] + vs;
    SplitJoin(tokens, c);
    PositionalDecode(code, index, pc, tokens, dataChecks, false);
    EncodedValues(pc, code, vs);
    if dataChecks {
      EncodedChecks(pc, code, vs);
    }
  }

  /** The positional values of an encoded segment are its values. */
  lemma EncodedValues(pc: seq<PropCache>, code: string, vs: seq<string>)
    requires |vs| == |pc|
    ensures seq(|pc|, x requires 0 <= x < |pc| => PositionalValue(pc, [code] + vs, x)) ==
      seq(|vs|, x requires 0 <= x < |vs| => Some(vs[x]))
  {
  }

  /** Values that pass their fields' checks are not rejected. */
  lemma EncodedChecks(pc: seq<PropCache>, code: string, vs: seq<string>)
    requires |vs| == |pc|
    requires forall x :: 0 <= x < |vs| ==> CheckValue(vs[x], pc[x].segment)
    ensures !PositionalRejected(pc, [code] + vs)
  {
  }

  /** The bounds check counts the segment code as a value, so a segment that
      carries one value for every field is rejected. */
  lemma FullSegmentRejected(code: string, index: int, pc: seq<PropCache>, vs: seq<string>, c: char,
                            dataChecks: bool)
    requires DistinctNames(pc) && |vs| == |pc|
    requires NoSeparator(code, {c}) && forall x :: 0 <= x < |vs| ==> NoSeparator(vs[x], {c})
    ensures Decode(code, index, pc, Split(Join([code] + vs, c), {c}), dataChecks, true) == Failure(FormatError)
  {
    SplitJoin([code] + vs, c);
  }

  // ---------------------------------------------------------------------
  // The factory
  // ---------------------------------------------------------------------

  /** The record types known by name, each with its properties in
      enumeration order. */
  type Registry = map<string, seq<Property>>

  /** Every record type's properties have distinct names. */
  predicate RegistryNamesDistinct(objects: Registry) {
    forall code :: code in objects ==> DistinctPropertyNames(objects[code])
  }

  /** `FindClasses`: the types of the factory's own assembly, overridden and
      extended by those of an external assembly when one is given and is not
      the same assembly. */
  function FindClasses(internal: Registry, external: Option<Registry>): (objects: Registry)
    ensures external.None? ==> objects == internal
    ensures external.Some? ==> objects.Keys == internal.Keys + external.value.Keys
    ensures external.Some? ==> forall code :: code in external.value ==> objects[code] == external.value[code]
    ensures external.Some? ==> forall code :: code in internal && code !in external.value ==> objects[code] == internal[code]
  {
    if external.None? then internal else internal + external.value
  }

  /** The separators `GetX12Item` splits a segment on: `*` or `|` when no
      separators are given, else the data element separator. */
  function SplitSet(separators: Option<MessageSeparators>): (seps: set<char>)
    requires separators.Some? ==> |separators.value.dataElementSeparator| == 1
    ensures separators.None? ==> seps == {'*', '|'}
    ensures separators.Some? ==> seps == {separators.value.dataElementSeparator[0]}
  {
    if separators.None? then {'*', '|'} else {separators.value.dataElementSeparator[0]}
  }

  /** The tokens of a segment line; the first is the segment code. */
  function Tokens(data: string, separators: Option<MessageSeparators>): (tokens: seq<string>)
    requires separators.Some? ==> |separators.value.dataElementSeparator| == 1
    ensures |tokens| >= 1
  {
    Split(data, SplitSet(separators))
  }

  /** What `GetX12Item` returns: a bare record for an unknown code, the
      error `CacheProperties` raises for a type whose orders are not well
      formed, else the segment decoded against the type's field list. */
  function Item(objects: Registry, data: string, index: int, dataChecks: bool, boundsChecks: bool,
                separators: Option<MessageSeparators>): (r: Result<X12>)
    requires RegistryNamesDistinct(objects)
    requires separators.Some? ==> |separators.value.dataElementSeparator| == 1
    ensures r.Success? ==> r.value.recordType == Tokens(data, separators)[0] && r.value.segmentIndex == index
    ensures Tokens(data, separators)[0] !in objects ==> r == Success(X12(Tokens(data, separators)[0], index, map[]))
    ensures r == Failure(FormatError) <==>
      var code := Tokens(data, separators)[0];
      code in objects && WellOrdered(Attributed(objects[code])) &&
      boundsChecks && |Tokens(data, separators)| > |Attributed(objects[code])|
  {
    var tokens := Tokens(data, separators);
    var code := tokens[0];
    if code !in objects then Success(X12(code, index, map[]))
    else
      var pc := Attributed(objects[code]);
      if !WellOrdered(pc) then Failure(ArgumentError)
      else
        AttributedDistinct(objects[code]);
        Decode(code, index, pc, tokens, dataChecks, boundsChecks)
  }

  /** The cache after a lookup of `code`: the type's list is added when the
      type is known, not yet cached and well ordered. */
  function CacheAfter(properties: map<string, seq<PropCache>>, objects: Registry, code: string): (r: map<string, seq<PropCache>>)
    ensures r.Keys == properties.Keys || r.Keys == properties.Keys + {code}
    ensures code in r && code !in properties ==>
      code in objects && r[code] == Attributed(objects[code]) && WellOrdered(r[code])
  {
    if code in objects && code !in properties && WellOrdered(Attributed(objects[code]))
    then properties[code := Attributed(objects[code])]
    else properties
  }

  /** `X12Factory`: the registry of record types and the cache of their
      field lists. */
  class X12Factory {
    const objects: Registry
    var properties: map<string, seq<PropCache>>

    /** Every cached list is the well-ordered field list of a known type. */
    ghost predicate Valid()
      reads this
    {
      RegistryNamesDistinct(objects) &&
      forall code :: code in properties ==>
        code in objects && properties[code] == Attributed(objects[code]) && WellOrdered(properties[code])
    }

    constructor (internal: Registry, external: Option<Registry>)
      requires RegistryNamesDistinct(FindClasses(internal, external))
      ensures Valid()
      ensures objects == FindClasses(internal, external) && properties == map[]
    {
      objects := FindClasses(internal, external);
      properties := map[];
    }

    /** The cached field list of a type, or an empty list. */
    function GetPropertiesForType(code: string): (pc: seq<PropCache>)
      reads this
      ensures code !in properties ==> pc == []
      ensures Valid() && code in properties ==> pc == Attributed(objects[code]) && WellOrdered(pc)
    {
      if code in properties then properties[code] else []
    }

    /** `CacheProperties`: builds the type's field list and adds it to the
        cache; a malformed order, or a list already cached, is an
        `ArgumentException` and leaves the cache as it was. */
    method CacheProperties(code: string) returns (r: Result<()>)
      requires Valid() && code in objects
      modifies this
      ensures Valid()
      ensures r.Success? <==> code !in old(properties) && WellOrdered(Attributed(objects[code]))
      ensures r.Failure? ==> r.error == ArgumentError && properties == old(properties)
      ensures properties == CacheAfter(old(properties), objects, code)
    {
      var built := BuildPropertyList(objects[code]);
      if built.Failure? {
        return Failure(ArgumentError);
      }
      if code in properties {
        return Failure(ArgumentError);
      }
      properties := properties[code := built.value];
      r := Success(());
    }

    /** `GetX12Item`: decodes one segment line. By default the values are
        checked, the token count is not, and the line splits on `*` and `|`. */
    method GetX12Item(data: string, index: int, dataChecks: bool := true, boundsChecks: bool := false,
                      separators: Option<MessageSeparators> := None) returns (r: Result<X12>)
      requires Valid()
      requires separators.Some? ==> |separators.value.dataElementSeparator| == 1
      modifies this
      ensures Valid()
      ensures r == Item(objects, data, index, dataChecks, boundsChecks, separators)
      ensures properties == CacheAfter(old(properties), objects, Tokens(data, separators)[0])
    {
      var segments := Tokens(data, separators);
      var segment := segments[0];
      if segment !in objects {
        return Success(X12(segment, index, map[]));
      }
      if segment !in properties {
        var cached := CacheProperties(segment);
        if cached.Failure? {
          return Failure(cached.error);
        }
      }
      var pc := properties[segment];
      AttributedDistinct(objects[segment]);
      if boundsChecks && |segments| > |pc| {
        return Failure(FormatError);
      }
      var fields := PopulateRecord(pc, segments, dataChecks);
      if fields.Failure? {
        return Failure(fields.error);
      }
      r := Success(X12(segment, index, fields.value));
    }
  }

  // ---------------------------------------------------------------------
  // Properties of the cache
  // ---------------------------------------------------------------------

  /** A lookup never changes or drops a cached list, and adds at most the
      looked-up code. */
  lemma CacheGrowsOnly(properties: map<string, seq<PropCache>>, objects: Registry, code: string)
    ensures forall c :: c in properties ==>
      (c in CacheAfter(properties, objects, code) && CacheAfter(properties, objects, code)[c] == properties[c])
    ensures forall c :: c in CacheAfter(properties, objects, code) && c !in properties ==> c == code
  {
  }

  /** Looking the same code up twice caches no more than looking it up
      once. */
  lemma CacheIdempotent(properties: map<string, seq<PropCache>>, objects: Registry, code: string)
    ensures CacheAfter(CacheAfter(properties, objects, code), objects, code) == CacheAfter(properties, objects, code)
  {
  }

  // ---------------------------------------------------------------------
  // Examples
  // ---------------------------------------------------------------------

  /** One record type `ABC` with three mandatory fields A, B and C. */
  function SampleRegistry(): (objects: Registry)
    ensures "ABC" in objects && RegistryNamesDistinct(objects)
    ensures Attributed(objects["ABC"]) == [PropCache("A", Plain(1)), PropCache("B", Plain(2)), PropCache("C", Plain(3))]
  {
    var props := [Property("A", Some(Plain(1))), Property("B", Some(Plain(2))), Property("C", Some(Plain(3)))];
    assert Attributed(props[..2]) == [PropCache("A", Plain(1)), PropCache("B", Plain(2))] by {
      assert props[..2][..1] == [props[0]];
      assert Attributed([props[0]]) == [PropCache("A", Plain(1))] by {
        assert [props[0]][..0] == [];
      }
    }
    map["ABC" := props]
  }

  /** `ABC*1*2*3` split on the default data element separator. */
  lemma SampleTokens()
    ensures Tokens("ABC*1*2*3", Some(Default())) == ["ABC", "1", "2", "3"]
  {
    assert Join(["ABC", "1", "2", "3"], '*') == "ABC*1*2*3";
    SplitJoin(["ABC", "1", "2", "3"], '*');
  }

  /** `ABC*1*2*3` under the bounds check: four tokens against three fields,
      so the complete segment is rejected. */
  lemma BoundsCheckRejectsFullSegment()
    ensures Item(SampleRegistry(), "ABC*1*2*3", 0, true, true, Some(Default())) == Failure(FormatError)
  {
    SampleTokens();
    RunAccepted();
  }

  /** The sample type's field list. */
  function SampleList(): seq<PropCache> {
    [PropCache("A", Plain(1)), PropCache("B", Plain(2)), PropCache("C", Plain(3))]
  }

  /** `ABC*1*2*3` without the bounds check: A, B and C get 1, 2 and 3. */
  lemma SampleDecoded()
    ensures Item(SampleRegistry(), "ABC*1*2*3", 7, true, false, Some(Default())).Success?
    ensures var fields := Item(SampleRegistry(), "ABC*1*2*3", 7, true, false, Some(Default())).value.fields;
      "A" in fields && fields["A"] == Some("1") &&
      "B" in fields && fields["B"] == Some("2") &&
      "C" in fields && fields["C"] == Some("3")
  {
    SampleItem();
    SampleFieldValues();
  }

  /** The sample segment reaches `Decode` with the type's field list. */
  lemma SampleItem()
    ensures Item(SampleRegistry(), "ABC*1*2*3", 7, true, false, Some(Default())) ==
      Decode("ABC", 7, SampleList(), ["ABC", "1", "2", "3"], true, false)
  {
    SampleTokens();
    RunAccepted();
  }

  /** Under positional orders, tokens past the one of the last field are
      ignored. */
  lemma PositionalExcessIgnored(code: string, index: int, pc: seq<PropCache>,
                                front: seq<string>, rest: seq<string>, dataChecks: bool)
    requires DistinctNames(pc) && Positional(pc) && |front| == |pc| + 1
    ensures Decode(code, index, pc, front + rest, dataChecks, false) ==
            Decode(code, index, pc, front, dataChecks, false)
  {
    PositionalGap(pc, front + rest);
    ExcessTokensIgnored(code, index, pc, front + rest, dataChecks);
    assert (front + rest)[..|pc| + 1] == front;
  }

  /** The sample list is positional and its tokens pass the value checks. */
  lemma SamplePositional()
    ensures DistinctNames(SampleList()) && Positional(SampleList())
    ensures !PositionalRejected(SampleList(), ["ABC", "1", "2", "3"])
  {
    assert ["ABC", "1", "2", "3"] == ["ABC"] + ["1", "2", "3"];
    EncodedChecks(SampleList(), "ABC", ["1", "2", "3"]);
  }

  /** The sample tokens decode positionally. */
  lemma SampleFieldValues()
    ensures Decode("ABC", 7, SampleList(), ["ABC", "1", "2", "3"], true, false).Success?
    ensures var fields := Decode("ABC", 7, SampleList(), ["ABC", "1", "2", "3"], true, false).value.fields;
      "A" in fields && fields["A"] == Some("1") &&
      "B" in fields && fields["B"] == Some("2") &&
      "C" in fields && fields["C"] == Some("3")
  {
    var pc := SampleList();
    var tokens := ["ABC", "1", "2", "3"];
    SamplePositional();
    PositionalFields("ABC", 7, pc, tokens, true, false);
    assert PositionalValue(pc, tokens, 0) == Some("1");
    assert PositionalValue(pc, tokens, 1) == Some("2");
    assert PositionalValue(pc, tokens, 2) == Some("3");
    assert pc[0].name == "A" && pc[1].name == "B" && pc[2].name == "C";
  }

  /** `ABC*1*2*3*4` split on the default data element separator. */
  lemma SampleTokensLong()
    ensures Tokens("ABC*1*2*3*4", Some(Default())) == ["ABC", "1", "2", "3", "4"]
  {
    assert Join(["ABC", "1", "2", "3", "4"], '*') == "ABC*1*2*3*4";
    SplitJoin(["ABC", "1", "2", "3", "4"], '*');
  }

  /** `ABC*1*2*3*4` without the bounds check decodes as `ABC*1*2*3`: the
      fourth value has no field and is ignored. */
  lemma ExcessTokenExample()
    ensures Item(SampleRegistry(), "ABC*1*2*3*4", 7, true, false, Some(Default())) ==
      Item(SampleRegistry(), "ABC*1*2*3", 7, true, false, Some(Default()))
  {
    SampleItem();
    SampleItemLong();
    SampleExcessDecode();
  }

  /** The fifth sample token is dropped before decoding. */
  lemma SampleExcessDecode()
    ensures Decode("ABC", 7, SampleList(), ["ABC", "1", "2", "3", "4"], true, false) ==
      Decode("ABC", 7, SampleList(), ["ABC", "1", "2", "3"], true, false)
  {
    SamplePositional();
    PositionalExcessIgnored("ABC", 7, SampleList(), ["ABC", "1", "2", "3"], ["4"], true);
    assert ["ABC", "1", "2", "3"] + ["4"] == ["ABC", "1", "2", "3", "4"];
  }

  /** The longer sample segment reaches `Decode` with the type's field
      list. */
  lemma SampleItemLong()
    ensures Item(SampleRegistry(), "ABC*1*2*3*4", 7, true, false, Some(Default())) ==
      Decode("ABC", 7, SampleList(), ["ABC", "1", "2", "3", "4"], true, false)
  {
    SampleTokensLong();
    RunAccepted();
  }

  /** With no separators given, `*` and `|` both split. */
  lemma EitherDefaultSeparator()
    ensures Tokens("AB|1*2", None) == ["AB", "1", "2"]
  {
    assert Weave(["AB", "1", "2"], "|*") == "AB|1*2";
    SplitWeaveInverse(["AB", "1", "2"], "|*", {'*', '|'});
  }

  /** A code the registry does not know gives a bare record. */
  lemma UnknownCodeExample()
    ensures Item(SampleRegistry(), "ZZZ*1", 4, true, true, Some(Default())) == Success(X12("ZZZ", 4, map[]))
  {
    assert Join(["ZZZ", "1"], '*') == "ZZZ*1";
    SplitJoin(["ZZZ", "1"], '*');
  }
}

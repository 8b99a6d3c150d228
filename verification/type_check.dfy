/** What `CommandBuilder.type_check` computes from the groups a pattern
    captured and the entry's target types. */
module Conversion {
  import opened CommandTypes

  /** What becomes of one captured group. */
  datatype ItemOutcome =
    | Kept(value: Value)     // the first conversion that produced a value
    | Dropped                // every target type produced None (or there were none)
    | Failed(target: TypeId) // this conversion raised, which aborts type_check

  /** Position `k` is the first target type whose conversion of `item` does
      not produce None: every earlier type produced None. */
  predicate FirstDecisive(item: string, types: seq<TypeId>, convert: Converter, k: nat)
    requires k < |types|
  {
    && (forall j :: 0 <= j < k ==> convert(types[j], item) == Produced(None))
    && convert(types[k], item) != Produced(None)
  }

  /** What the conversion at position `k` makes of the group. */
  function OutcomeAt(item: string, types: seq<TypeId>, convert: Converter, k: nat): ItemOutcome
    requires k < |types|
  {
    match convert(types[k], item)
    case Raised => Failed(types[k])
    case Produced(None) => Dropped
    case Produced(Some(v)) => Kept(v)
  }

  /** One captured group against the target types, in order: a conversion that
      raises ends everything, one that produces a value is kept and ends the
      search, one that produces None moves on to the next type. */
  function ConvertItem(item: string, types: seq<TypeId>, convert: Converter): (o: ItemOutcome)
    ensures o.Dropped? <==> forall t :: t in types ==> convert(t, item) == Produced(None)
    ensures !o.Dropped? ==>
              exists k: nat :: k < |types| && FirstDecisive(item, types, convert, k) && o == OutcomeAt(item, types, convert, k)
    decreases |types|
  {
    if types == [] then Dropped
    else
      match convert(types[0], item)
      case Raised =>
        assert FirstDecisive(item, types, convert, 0);
        Failed(types[0])
      case Produced(None) =>
        var o := ConvertItem(item, types[1..], convert);
        assert forall t :: t in types ==> t == types[0] || t in types[1..];
        assert !o.Dropped? ==>
                 exists k: nat :: k < |types| && FirstDecisive(item, types, convert, k) && o == OutcomeAt(item, types, convert, k) by {
          if !o.Dropped? {
            var k: nat :| k < |types[1..]| && FirstDecisive(item, types[1..], convert, k)
                          && o == OutcomeAt(item, types[1..], convert, k);
            assert forall j :: 0 <= j < k ==> types[1..][j] == types[j + 1];
            assert FirstDecisive(item, types, convert, k + 1);
          }
        }
        o
      case Produced(Some(v)) =>
        assert FirstDecisive(item, types, convert, 0);
        Kept(v)
  }

  /** Group `i` is the first whose conversion fails. */
  predicate FirstFailure(items: seq<string>, types: seq<TypeId>, convert: Converter, i: nat)
    requires i < |items|
  {
    && ConvertItem(items[i], types, convert).Failed?
    && forall j :: 0 <= j < i ==> !ConvertItem(items[j], types, convert).Failed?
  }

  /** All captured groups, left to right; the first group that fails decides the error. */
  function ConvertAll(items: seq<string>, types: seq<TypeId>, convert: Converter): (r: Result<seq<Value>>)
    ensures r.Ok? ==> |r.value| <= |items|
    ensures r.Err? ==>
              exists i: nat :: i < |items| && FirstFailure(items, types, convert, i) &&
                r.error == ConversionFailed(items[i], ConvertItem(items[i], types, convert).target)
    decreases |items|
  {
    if items == [] then Ok([])
    else
      match ConvertItem(items[0], types, convert)
      case Failed(t) =>
        assert FirstFailure(items, types, convert, 0);
        Err(ConversionFailed(items[0], t))
      case Dropped =>
        var r := ConvertAll(items[1..], types, convert);
        ShiftFirstFailure(items, types, convert, r);
        r
      case Kept(v) =>
        match ConvertAll(items[1..], types, convert)
        case Ok(rest) => Ok([v] + rest)
        case Err(e) =>
          ShiftFirstFailure(items, types, convert, Err(e));
          Err(e)
  }

  /** A first failure among the later groups is the first failure overall
      when the first group does not fail. */
  lemma ShiftFirstFailure(items: seq<string>, types: seq<TypeId>, convert: Converter, r: Result<seq<Value>>)
    requires |items| > 0 && !ConvertItem(items[0], types, convert).Failed?
    requires r.Err? ==>
               exists i: nat :: i < |items[1..]| && FirstFailure(items[1..], types, convert, i) &&
                 r.error == ConversionFailed(items[1..][i], ConvertItem(items[1..][i], types, convert).target)
    ensures r.Err? ==>
              exists i: nat :: i < |items| && FirstFailure(items, types, convert, i) &&
                r.error == ConversionFailed(items[i], ConvertItem(items[i], types, convert).target)
  {
    if r.Err? {
      var i: nat :| i < |items[1..]| && FirstFailure(items[1..], types, convert, i) &&
                    r.error == ConversionFailed(items[1..][i], ConvertItem(items[1..][i], types, convert).target);
      assert forall j :: 0 <= j <= i ==> items[1..][j] == items[j + 1];
      assert FirstFailure(items, types, convert, i + 1);
    }
  }

  /** The outcome of every group, in order. */
  function Outcomes(items: seq<string>, types: seq<TypeId>, convert: Converter): seq<ItemOutcome> {
    seq(|items|, i requires 0 <= i < |items| => ConvertItem(items[i], types, convert))
  }

  /** The values of the kept outcomes, in order. */
  function KeptValues(os: seq<ItemOutcome>): seq<Value> {
    if os == [] then [] else (if os[0].Kept? then [os[0].value] else []) + KeptValues(os[1..])
  }

  /** When no group fails, the result is the kept values in the order of the
      groups: dropped groups leave no gap and nothing is reordered. */
  lemma {:induction false} NoFailureKeepsKeptInOrder(items: seq<string>, types: seq<TypeId>, convert: Converter)
    requires forall i :: 0 <= i < |items| ==> !ConvertItem(items[i], types, convert).Failed?
    ensures ConvertAll(items, types, convert) == Ok(KeptValues(Outcomes(items, types, convert)))
    decreases |items|
  {
    if items != [] {
      assert forall i :: 0 <= i < |items[1..]| ==> items[1..][i] == items[i + 1];
      NoFailureKeepsKeptInOrder(items[1..], types, convert);
      var os := Outcomes(items, types, convert);
      assert os[1..] == Outcomes(items[1..], types, convert);
      assert os[0] == ConvertItem(items[0], types, convert) && !os[0].Failed?;
      assert KeptValues(os) == (if os[0].Kept? then [os[0].value] else []) + KeptValues(os[1..]);
      var rest := KeptValues(os[1..]);
      assert ConvertAll(items[1..], types, convert) == Ok(rest);
      if os[0].Kept? {
        assert ConvertAll(items, types, convert) == Ok([os[0].value] + rest);
      } else {
        assert [] + rest == rest;
        assert ConvertAll(items, types, convert) == Ok(rest);
      }
    } else {
      assert Outcomes(items, types, convert) == [];
    }
  }

  /** `type_check(input_list, target_types)`: with no target types only an empty
      group list is accepted; otherwise every group is converted. */
  function TypeChecked(items: seq<string>, targets: Option<seq<TypeId>>, convert: Converter): Result<seq<Value>>
  {
    match targets
    case None => if |items| == 0 then Ok([]) else Err(ArityError(|items|))
    case Some(types) => ConvertAll(items, types, convert)
  }

  /** A failure anywhere makes the whole conversion fail: no group is skipped over an error. */
  lemma {:induction false} FailureAborts(items: seq<string>, types: seq<TypeId>, convert: Converter, i: nat)
    requires i < |items| && ConvertItem(items[i], types, convert).Failed?
    ensures ConvertAll(items, types, convert).Err?
    decreases |items|
  {
    if i > 0 {
      match ConvertItem(items[0], types, convert)
      case Failed(_) =>
      case Dropped =>
        assert items[1..][i - 1] == items[i];
        FailureAborts(items[1..], types, convert, i - 1);
      case Kept(_) =>
        assert items[1..][i - 1] == items[i];
        FailureAborts(items[1..], types, convert, i - 1);
    }
  }

  /** Only the first target type is consulted unless it produces None: a
      conversion that raises is not retried with the later types. */
  lemma FirstTypeDecides(item: string, types: seq<TypeId>, convert: Converter)
    requires |types| > 0 && convert(types[0], item) != Produced(None)
    ensures ConvertItem(item, types, convert) == ConvertItem(item, types[..1], convert)
    ensures ConvertItem(item, types, convert) ==
              if convert(types[0], item).Raised? then Failed(types[0])
              else Kept(convert(types[0], item).result.value)
  {
  }

  /** When every group converts to a value, the result lists those values in
      the order of the groups, one per group. */
  lemma {:induction false} AllKeptKeepsShape(items: seq<string>, types: seq<TypeId>, convert: Converter)
    requires forall i :: 0 <= i < |items| ==> ConvertItem(items[i], types, convert).Kept?
    ensures ConvertAll(items, types, convert).Ok?
    ensures |ConvertAll(items, types, convert).value| == |items|
    ensures forall i :: 0 <= i < |items| ==>
              ConvertAll(items, types, convert).value[i] == ConvertItem(items[i], types, convert).value
    decreases |items|
  {
    if items != [] {
      assert ConvertItem(items[0], types, convert).Kept?;
      forall i | 0 <= i < |items[1..]|
        ensures ConvertItem(items[1..][i], types, convert).Kept?
      {
        assert items[1..][i] == items[i + 1];
      }
      AllKeptKeepsShape(items[1..], types, convert);
      var rest := ConvertAll(items[1..], types, convert).value;
      forall i | 0 <= i < |items|
        ensures ConvertAll(items, types, convert).value[i] == ConvertItem(items[i], types, convert).value
      {
        if i > 0 {
          assert items[1..][i - 1] == items[i];
        }
      }
    }
  }

  /** An empty list of target types drops every captured group: type_check
      succeeds with no arguments, whatever the number of groups. */
  lemma {:induction false} EmptyTypesDropEverything(items: seq<string>, convert: Converter)
    ensures TypeChecked(items, Some([]), convert) == Ok([])
    decreases |items|
  {
    if items != [] {
      EmptyTypesDropEverything(items[1..], convert);
    }
  }

  /** The number of target types is never compared with the number of groups:
      one type that always converts accepts any number of groups. */
  lemma ArityNotChecked(items: seq<string>, t: TypeId, convert: Converter)
    requires forall s :: convert(t, s).Produced? && convert(t, s).result.Some?
    ensures TypeChecked(items, Some([t]), convert).Ok?
    ensures |TypeChecked(items, Some([t]), convert).value| == |items|
  {
    forall i | 0 <= i < |items| ensures ConvertItem(items[i], [t], convert).Kept? {
      assert convert(t, items[i]).Produced?;
    }
    AllKeptKeepsShape(items, [t], convert);
  }
}

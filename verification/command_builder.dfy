/** `CommandBuilder`: a registry of commands, kept in insertion order, and a
    dispatcher that answers a command line with the first registered entry
    that accepts it. */
module Dispatcher {
  import opened CommandTypes
  import opened Registry
  import Conversion
  import Describe

  /** `Ok(prefix + values)` when `r` succeeded with `values`; an error is passed on. */
  function Prepend(prefix: seq<Value>, r: Result<seq<Value>>): Result<seq<Value>> {
    match r
    case Ok(values) => Ok(prefix + values)
    case Err(e) => Err(e)
  }

  lemma PrependTwice(a: seq<Value>, b: seq<Value>, r: Result<seq<Value>>)
    ensures Prepend(a, Prepend(b, r)) == Prepend(a + b, r)
  {
    if r.Ok? {
      assert a + (b + r.value) == (a + b) + r.value;
    }
  }

  class CommandBuilder {
    /** The registered entries, oldest first. */
    var commands: seq<Entry>

    /** The registry's invariant: keys are pairwise distinct. */
    ghost predicate Valid()
      reads this
    {
      UniqueKeys(commands)
    }

    constructor ()
      ensures Valid() && commands == []
    {
      commands := [];
    }

    /** `add_command`: registers the entry at the end if no entry has this key. */
    method AddCommand(key: Key, types: Option<seq<TypeId>>, handler: HandlerId) returns (added: bool)
      modifies this
      ensures added <==> !HasKey(old(commands), key)
      ensures commands == if added then old(commands) + [Entry(key, types, handler)] else old(commands)
      ensures old(Valid()) ==> Valid()
    {
      if !HasKey(commands, key) {
        ghost var before := commands;
        commands := commands + [Entry(key, types, handler)];
        if UniqueKeys(before) {
          AddKeepsKeysUnique(before, Entry(key, types, handler));
        }
        return true;
      }
      return false;
    }

    /** `remove_command`: drops every entry with this key, keeping the others in
        order, and answers whether the list came out unchanged, that is,
        true when nothing was removed. */
    method RemoveCommand(key: Key) returns (nothingRemoved: bool)
      modifies this
      ensures commands == Without(old(commands), key)
      ensures nothingRemoved <==> !HasKey(old(commands), key)
      ensures old(Valid()) ==> Valid()
    {
      var kept := Without(commands, key);
      nothingRemoved := kept == commands;
      WithoutIsIdentityIffAbsent(commands, key);
      if UniqueKeys(commands) {
        RemoveKeepsKeysUnique(commands, key);
      }
      commands := kept;
    }

    /** `type_check`: checks the arity when there are no target types, and
        otherwise converts every captured group, trying the types in order. */
    static method TypeCheck(items: seq<string>, targets: Option<seq<TypeId>>, convert: Converter)
      returns (r: Result<seq<Value>>)
      ensures r == Conversion.TypeChecked(items, targets, convert)
      ensures targets.None? ==> (r.Ok? <==> items == [])
      ensures targets.None? && r.Ok? ==> r.value == []
      ensures targets.None? && r.Err? ==> r.error == ArityError(|items|)
      ensures r.Ok? ==> |r.value| <= |items|
    {
      if targets.None? {
        if |items| == 0 {
          return Ok([]);
        }
        return Err(ArityError(|items|));
      }
      var types := targets.value;
      var result: seq<Value> := [];
      var i := 0;
      assert items[i..] == items;
      assert Conversion.ConvertAll(items, types, convert).Ok? ==>
               [] + Conversion.ConvertAll(items, types, convert).value == Conversion.ConvertAll(items, types, convert).value;
      while i < |items|
        invariant 0 <= i <= |items|
        invariant Conversion.ConvertAll(items, types, convert) ==
                    Prepend(result, Conversion.ConvertAll(items[i..], types, convert))
      {
        var item := items[i];
        assert items[i..][0] == item && items[i..][1..] == items[i + 1..];
        ghost var before, kept := result, None;
        var k := 0;
        while k < |types|
          invariant 0 <= k <= |types|
          invariant result == before && kept == None
          invariant Conversion.ConvertItem(item, types, convert) == Conversion.ConvertItem(item, types[k..], convert)
        {
          assert types[k..][0] == types[k] && types[k..][1..] == types[k + 1..];
          var c := convert(types[k], item);
          if c.Raised? {
            return Err(ConversionFailed(item, types[k]));
          }
          if c.result.Some? {
            result, kept := result + [c.result.value], c.result;
            break;
          }
          k := k + 1;
        }
        if kept.Some? {
          assert Conversion.ConvertItem(item, types, convert) == Conversion.Kept(kept.value);
          assert Conversion.ConvertAll(items[i..], types, convert) ==
                   Prepend([kept.value], Conversion.ConvertAll(items[i + 1..], types, convert));
          PrependTwice(before, [kept.value], Conversion.ConvertAll(items[i + 1..], types, convert));
        } else {
          assert types[k..] == [];
          assert Conversion.ConvertItem(item, types, convert) == Conversion.Dropped;
          assert Conversion.ConvertAll(items[i..], types, convert) == Conversion.ConvertAll(items[i + 1..], types, convert);
        }
        i := i + 1;
      }
      assert items[i..] == [] && result + [] == result;
      return Ok(result);
    }

    /** `get`: scans the entries in insertion order and answers with the first
        that accepts the command; a pattern whose groups fail `type_check` is
        passed over. */
    method Get(command: string, matcher: Matcher, convert: Converter) returns (hit: Option<Found>)
      ensures hit == FirstHit(commands, command, matcher, convert)
    {
      var i := 0;
      while i < |commands|
        invariant 0 <= i <= |commands|
        invariant FirstHit(commands, command, matcher, convert) == FirstHit(commands[i..], command, matcher, convert)
      {
        var e := commands[i];
        assert commands[i..][0] == e && commands[i..][1..] == commands[i + 1..];
        match e.key {
          case Pattern(id) =>
            var groups := matcher(id, command);
            if groups.Some? {
              var args := TypeCheck(groups.value, e.types, convert);
              if args.Ok? {
                return Some(Found(e.handler, Some(args.value)));
              }
            }
          case Literal(text) =>
            if text == command {
              return Some(Found(e.handler, None));
            }
        }
        i := i + 1;
      }
      return None;
    }

    /** `handle`: runs the handler `get` found, reporting whether there was one. */
    method Handle(command: string, matcher: Matcher, convert: Converter) returns (handled: bool, call: Dispatch)
      ensures call == Handled(FirstHit(commands, command, matcher, convert))
      ensures handled <==> exists i :: 0 <= i < |commands| && Probe(commands[i], command, matcher, convert).Some?
      ensures handled <==> call.Call?
    {
      var hit := Get(command, matcher, convert);
      MissIffNothingHits(commands, command, matcher, convert);
      match hit {
        case None =>
          handled, call := false, NoCommand;
        case Some(found) =>
          handled, call := true, Call(found.handler, found.args.GetOr([]));
      }
    }

    /** `__repr__`: the number of entries, with "commands" for every count but one. */
    function Repr(): (s: string)
      reads this
      ensures Describe.EndsWith(s, "commands>") <==> |commands| != 1
      ensures |Describe.Prefix| + |Describe.Decimal(|commands|)| <= |s|
      ensures s[|Describe.Prefix|..|Describe.Prefix| + |Describe.Decimal(|commands|)|] == Describe.Decimal(|commands|)
    {
      Describe.DescribePlural(|commands|);
      Describe.DescribeReportsCount(|commands|);
      Describe.Describe(|commands|)
    }
  }

  /** The six registrations of the interactive demo, in its order: the
      patterns for echo, add, sub, mul and div (ids 0 to 4), with one `str`
      target for echo and two `int` targets for the others, then the literal
      `exit` with no target types (handlers 0 to 5). Every key is new, so each
      registration is accepted and appended; when none of the five patterns
      matches the line `exit`, the lookup reaches the literal, which yields
      its handler and no argument list. */
  method DemoRegistrations(strType: TypeId, intType: TypeId, matcher: Matcher, convert: Converter)
    requires forall p: PatternId :: p < 5 ==> matcher(p, "exit") == None
  {
    var b := new CommandBuilder();
    var ok := b.AddCommand(Pattern(0), Some([strType]), 0);
    assert ok;
    ok := b.AddCommand(Pattern(1), Some([intType, intType]), 1);
    assert ok;
    ok := b.AddCommand(Pattern(2), Some([intType, intType]), 2);
    assert ok;
    ok := b.AddCommand(Pattern(3), Some([intType, intType]), 3);
    assert ok;
    ok := b.AddCommand(Pattern(4), Some([intType, intType]), 4);
    assert ok;
    ok := b.AddCommand(Literal("exit"), None, 5);
    assert ok;
    assert b.commands == [Entry(Pattern(0), Some([strType]), 0),
                          Entry(Pattern(1), Some([intType, intType]), 1),
                          Entry(Pattern(2), Some([intType, intType]), 2),
                          Entry(Pattern(3), Some([intType, intType]), 3),
                          Entry(Pattern(4), Some([intType, intType]), 4),
                          Entry(Literal("exit"), None, 5)];
    assert b.Valid();
    forall j | 0 <= j < 5 ensures Probe(b.commands[j], "exit", matcher, convert).None? {
      assert b.commands[j].key == Pattern(j);
    }
    EarliestAnswerWins(b.commands, 5, "exit", matcher, convert);
    var hit := b.Get("exit", matcher, convert);
    assert hit == Some(Found(5, None));
  }
}

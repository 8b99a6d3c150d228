/** The ordered list of registered commands, as a value: key membership,
    removal by key, and the first-match lookup `get` performs over it. */
module Registry {
  import opened CommandTypes
  import Conversion

  /** Some entry is registered under `key`. */
  predicate HasKey(s: seq<Entry>, key: Key) {
    exists i :: 0 <= i < |s| && s[i].key == key
  }

  /** No two entries share a key. */
  predicate UniqueKeys(s: seq<Entry>) {
    forall i, j :: 0 <= i < j < |s| ==> s[i].key != s[j].key
  }

  /** The entries whose key differs from `key`, in their original order. */
  function Without(s: seq<Entry>, key: Key): (r: seq<Entry>)
    ensures |r| <= |s|
    ensures forall e :: e in r <==> e in s && e.key != key
    ensures HasKey(s, key) ==> |r| < |s|
    decreases |s|
  {
    if s == [] then []
    else
      var rest := Without(s[1..], key);
      assert HasKey(s, key) && s[0].key != key ==> HasKey(s[1..], key) by {
        if HasKey(s, key) && s[0].key != key {
          var i :| 0 <= i < |s| && s[i].key == key;
          assert s[1..][i - 1] == s[i];
        }
      }
      if s[0].key == key then rest else [s[0]] + rest
  }

  /** Removing a key changes nothing exactly when the key is absent; this is
      what `remove_command` reports as its result. */
  lemma WithoutIsIdentityIffAbsent(s: seq<Entry>, key: Key)
    ensures Without(s, key) == s <==> !HasKey(s, key)
  {
    if !HasKey(s, key) {
      AbsentKeyKeepsAll(s, key);
    }
  }

  lemma {:induction false} AbsentKeyKeepsAll(s: seq<Entry>, key: Key)
    requires !HasKey(s, key)
    ensures Without(s, key) == s
    decreases |s|
  {
    if s != [] {
      AbsentKeyKeepsAll(s[1..], key);
    }
  }

  /** Removal works entry by entry, so the relative order of what remains is
      the original order. */
  lemma {:induction false} WithoutDistributes(s: seq<Entry>, t: seq<Entry>, key: Key)
    ensures Without(s + t, key) == Without(s, key) + Without(t, key)
    decreases |s|
  {
    if s != [] {
      assert (s + t)[1..] == s[1..] + t;
      WithoutDistributes(s[1..], t, key);
    } else {
      assert s + t == t;
    }
  }

  /** Removing a key that was just added undoes the addition. */
  lemma RemoveUndoesAdd(s: seq<Entry>, e: Entry)
    requires !HasKey(s, e.key)
    ensures Without(s + [e], e.key) == s
  {
    WithoutDistributes(s, [e], e.key);
    AbsentKeyKeepsAll(s, e.key);
    assert Without([e], e.key) == [];
  }

  /** Adding under a fresh key keeps keys unique. */
  lemma AddKeepsKeysUnique(s: seq<Entry>, e: Entry)
    requires UniqueKeys(s) && !HasKey(s, e.key)
    ensures UniqueKeys(s + [e])
  {
  }

  /** Removing a key keeps keys unique. */
  lemma {:induction false} RemoveKeepsKeysUnique(s: seq<Entry>, key: Key)
    requires UniqueKeys(s)
    ensures UniqueKeys(Without(s, key))
    decreases |s|
  {
    if s != [] {
      RemoveKeepsKeysUnique(s[1..], key);
      var rest := Without(s[1..], key);
      if s[0].key != key {
        forall j | 0 <= j < |rest| ensures rest[j].key != s[0].key {
          assert rest[j] in s[1..];
          var k :| 0 <= k < |s[1..]| && s[1..][k] == rest[j];
          assert s[k + 1] == rest[j];
        }
        assert Without(s, key) == [s[0]] + rest;
      }
    }
  }

  /** With unique keys, removing a present key removes exactly one entry. */
  lemma {:induction false} UniqueRemoveDropsOne(s: seq<Entry>, key: Key)
    requires UniqueKeys(s) && HasKey(s, key)
    ensures |Without(s, key)| == |s| - 1
    decreases |s|
  {
    if s[0].key == key {
      AbsentKeyKeepsAll(s[1..], key);
    } else {
      var i :| 0 <= i < |s| && s[i].key == key;
      assert s[1..][i - 1].key == key;
      UniqueRemoveDropsOne(s[1..], key);
    }
  }

  /** What `get` returns on a hit: the handler and, for a pattern entry, the
      converted arguments (a literal entry gives no argument list). */
  datatype Found = Found(handler: HandlerId, args: Option<seq<Value>>)

  /** One step of `get`'s scan: does this entry answer the command? A pattern
      that matches but whose groups fail `type_check` does not. */
  function Probe(e: Entry, command: string, matcher: Matcher, convert: Converter): Option<Found>
  {
    match e.key
    case Pattern(id) =>
      (match matcher(id, command)
       case None => None
       case Some(groups) =>
         (match Conversion.TypeChecked(groups, e.types, convert)
          case Ok(args) => Some(Found(e.handler, Some(args)))
          case Err(_) => None))
    case Literal(text) =>
      if text == command then Some(Found(e.handler, None)) else None
  }

  /** The first entry, in insertion order, that answers the command. */
  function FirstHit(s: seq<Entry>, command: string, matcher: Matcher, convert: Converter): Option<Found>
    decreases |s|
  {
    if s == [] then None
    else
      match Probe(s[0], command, matcher, convert)
      case Some(f) => Some(f)
      case None => FirstHit(s[1..], command, matcher, convert)
  }

  /** The lookup misses exactly when no entry answers the command. */
  lemma {:induction false} MissIffNothingHits(s: seq<Entry>, command: string, matcher: Matcher, convert: Converter)
    ensures FirstHit(s, command, matcher, convert).None? <==>
              forall i :: 0 <= i < |s| ==> Probe(s[i], command, matcher, convert).None?
    decreases |s|
  {
    if s != [] {
      MissIffNothingHits(s[1..], command, matcher, convert);
      assert forall i :: 1 <= i < |s| ==> s[1..][i - 1] == s[i];
    }
  }

  /** First match wins: if entry `i` answers and no earlier entry does, the
      lookup returns entry `i`'s answer. */
  lemma {:induction false} EarliestAnswerWins(s: seq<Entry>, i: nat, command: string, matcher: Matcher, convert: Converter)
    requires i < |s| && Probe(s[i], command, matcher, convert).Some?
    requires forall j :: 0 <= j < i ==> Probe(s[j], command, matcher, convert).None?
    ensures FirstHit(s, command, matcher, convert) == Probe(s[i], command, matcher, convert)
    decreases i
  {
    if i > 0 {
      assert s[1..][i - 1] == s[i];
      assert forall j :: 0 <= j < i - 1 ==> s[1..][j] == s[j + 1];
      EarliestAnswerWins(s[1..], i - 1, command, matcher, convert);
    }
  }

  /** Every hit is the answer of some entry that no earlier entry pre-empts. */
  lemma {:induction false} HitHasEarliestSource(s: seq<Entry>, command: string, matcher: Matcher, convert: Converter)
    returns (i: nat)
    requires FirstHit(s, command, matcher, convert).Some?
    ensures i < |s| && Probe(s[i], command, matcher, convert) == FirstHit(s, command, matcher, convert)
    ensures forall j :: 0 <= j < i ==> Probe(s[j], command, matcher, convert).None?
    decreases |s|
  {
    if Probe(s[0], command, matcher, convert).Some? {
      i := 0;
    } else {
      var k := HitHasEarliestSource(s[1..], command, matcher, convert);
      i := k + 1;
      assert s[1..][k] == s[i];
      assert forall j :: 1 <= j < i ==> s[1..][j - 1] == s[j];
    }
  }

  /** An entry whose pattern matches but whose groups fail conversion is
      passed over: the search goes on with the entries after it. */
  lemma ConversionErrorFallsThrough(e: Entry, rest: seq<Entry>, command: string, matcher: Matcher, convert: Converter)
    requires e.key.Pattern? && matcher(e.key.id, command).Some?
    requires Conversion.TypeChecked(matcher(e.key.id, command).value, e.types, convert).Err?
    ensures FirstHit([e] + rest, command, matcher, convert) == FirstHit(rest, command, matcher, convert)
  {
    assert ([e] + rest)[1..] == rest;
  }

  /** Lookup over a list extended at the end: entries already answering keep
      answering; the new entries are consulted only on a miss. */
  lemma {:induction false} AppendedEntriesComeLast(s: seq<Entry>, t: seq<Entry>, command: string, matcher: Matcher, convert: Converter)
    ensures FirstHit(s + t, command, matcher, convert) ==
              if FirstHit(s, command, matcher, convert).Some? then FirstHit(s, command, matcher, convert)
              else FirstHit(t, command, matcher, convert)
    decreases |s|
  {
    if s == [] {
      assert s + t == t;
    } else {
      assert (s + t)[1..] == s[1..] + t;
      AppendedEntriesComeLast(s[1..], t, command, matcher, convert);
    }
  }

  /** The call `handle` makes, or why it makes none. */
  datatype Dispatch =
    | Call(handler: HandlerId, args: seq<Value>) // the handler is invoked with these arguments
    | NoCommand                                  // nothing answered: `handle` returns (False, None)
    | ArgsNotIterable(handler: HandlerId)        // unpacking a missing argument list raises TypeError

  /** `handle` as written: it unpacks whatever `get` returned, so a literal hit
      (no argument list) raises TypeError before the handler runs. */
  function HandledAsWritten(hit: Option<Found>): Dispatch
  {
    match hit
    case None => NoCommand
    case Some(Found(h, None)) => ArgsNotIterable(h)
    case Some(Found(h, Some(args))) => Call(h, args)
  }

  /** `handle` as intended: a literal hit invokes its handler with no arguments. */
  function Handled(hit: Option<Found>): (d: Dispatch)
    ensures !d.ArgsNotIterable?
    ensures d.NoCommand? <==> hit.None?
    ensures hit.Some? ==> d.handler == hit.value.handler
  {
    match hit
    case None => NoCommand
    case Some(Found(h, None)) => Call(h, [])
    case Some(Found(h, Some(args))) => Call(h, args)
  }

  /** As written, a registry whose first answer to a command is a literal
      entry cannot run that command. */
  lemma LiteralHitRaisesAsWritten(s: seq<Entry>, command: string, matcher: Matcher, convert: Converter)
    requires FirstHit(s, command, matcher, convert).Some?
    requires FirstHit(s, command, matcher, convert).value.args.None?
    ensures HandledAsWritten(FirstHit(s, command, matcher, convert)).ArgsNotIterable?
  {
  }

  /** The concrete case: `exit` registered as a literal with no types. */
  lemma ExitCommandRaisesAsWritten(h: HandlerId, matcher: Matcher, convert: Converter)
    ensures HandledAsWritten(FirstHit([Entry(Literal("exit"), None, h)], "exit", matcher, convert)) == ArgsNotIterable(h)
    ensures Handled(FirstHit([Entry(Literal("exit"), None, h)], "exit", matcher, convert)) == Call(h, [])
  {
  }

  /** Corrected dispatch: a handler runs exactly when some entry answers, with
      the converted arguments of a pattern hit or none for a literal hit. */
  lemma {:induction false} DispatchRunsFirstAnswer(s: seq<Entry>, command: string, matcher: Matcher, convert: Converter)
    ensures Handled(FirstHit(s, command, matcher, convert)).NoCommand? <==>
              forall i :: 0 <= i < |s| ==> Probe(s[i], command, matcher, convert).None?
    ensures FirstHit(s, command, matcher, convert).Some? ==>
              Handled(FirstHit(s, command, matcher, convert)) ==
                Call(FirstHit(s, command, matcher, convert).value.handler,
                     FirstHit(s, command, matcher, convert).value.args.GetOr([]))
  {
    MissIffNothingHits(s, command, matcher, convert);
  }
}

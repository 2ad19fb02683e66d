/** The token scanners of the command line (apps/cli/src/command-model.ts:81-252 and
    568-591). A definition list is what `Object.entries` gives: names are distinct. */
module CommandTokens {
  import opened Strings

  datatype Option<T> = None | Some(value: T)

  /** An argument may leave its type out. */
  datatype ArgType = BooleanArg | StringArg | EnumArg | PositionalArg | Untyped

  datatype Definition = Definition(
    kind: ArgType,
    aliases: seq<string>,
    multiple: bool,
    defaultTrue: bool,
    negativeDescription: bool,
    options: Option<seq<string>>)

  datatype Named = Named(name: string, definition: Definition)

  type OptionMap = map<string, Named>

  predicate DistinctNames(defs: seq<Named>)
  {
    forall i, j :: 0 <= i < j < |defs| ==> defs[i].name != defs[j].name
  }

  predicate IsValueArgument(d: Definition)
  {
    d.kind.StringArg? || d.kind.EnumArg?
  }

  predicate HasNegation(d: Definition)
  {
    d.kind.BooleanArg? && (d.defaultTrue || d.negativeDescription)
  }

  function Negation(name: string): string
  {
    "no-" + name
  }

  // ---- The option maps ------------------------------------------------------------------

  /** Later keys overwrite earlier ones. */
  function SetAll(m: OptionMap, keys: seq<string>, option: Named): OptionMap
    decreases |keys|
  {
    if keys == [] then m else SetAll(m, keys[..|keys| - 1], option)[keys[|keys| - 1] := option]
  }

  function AddNames(m: OptionMap, option: Named): OptionMap
  {
    SetAll(m[option.name := option], option.definition.aliases, option)
  }

  function AddOption(m: OptionMap, option: Named): OptionMap
  {
    var named := AddNames(m, option);
    if HasNegation(option.definition) then named[Negation(option.name) := option] else named
  }

  /** The map `validateTokens` reads: names, aliases and generated negations. */
  function AllOptions(defs: seq<Named>): OptionMap
    decreases |defs|
  {
    if defs == [] then map[]
    else
      var front := AllOptions(defs[..|defs| - 1]);
      if defs[|defs| - 1].definition.kind.PositionalArg? then front else AddOption(front, defs[|defs| - 1])
  }

  /** The map `collectMultipleValues` reads: names and aliases only. */
  function NamedOptions(defs: seq<Named>): OptionMap
    decreases |defs|
  {
    if defs == [] then map[]
    else
      var front := NamedOptions(defs[..|defs| - 1]);
      if defs[|defs| - 1].definition.kind.PositionalArg? then front else AddNames(front, defs[|defs| - 1])
  }

  method SetAliases(m: OptionMap, option: Named) returns (r: OptionMap)
    ensures r == SetAll(m, option.definition.aliases, option)
  {
    r := m;
    var aliases := option.definition.aliases;
    for i := 0 to |aliases|
      invariant r == SetAll(m, aliases[..i], option)
    {
      assert aliases[..i + 1][..i] == aliases[..i];
      r := r[aliases[i] := option];
    }
    assert aliases[..|aliases|] == aliases;
  }

  method BuildOptionMap(defs: seq<Named>) returns (options: OptionMap)
    ensures options == AllOptions(defs)
  {
    options := map[];
    for i := 0 to |defs|
      invariant options == AllOptions(defs[..i])
    {
      assert defs[..i + 1][..i] == defs[..i];
      var option := defs[i];
      if option.definition.kind.PositionalArg? {
        continue;
      }
      options := options[option.name := option];
      options := SetAliases(options, option);
      if option.definition.kind.BooleanArg?
         && (option.definition.defaultTrue || option.definition.negativeDescription) {
        options := options[Negation(option.name) := option];
      }
    }
    assert defs[..|defs|] == defs;
  }

  /** How a token names an option: `--name` or `-x`. */
  function KeyOf(token: string): Option<string>
  {
    if |token| >= 2 && token[0] == '-' && token[1] == '-' then Some(token[2..])
    else if |token| == 2 && token[0] == '-' then Some(token[1..])
    else None
  }

  function Resolve(options: OptionMap, token: string): Option<Named>
  {
    var key := KeyOf(token);
    if key.Some? && key.value in options then Some(options[key.value]) else None
  }

  /** A token names an option by `--` and any name, or by `-` and a single character. */
  lemma KeyExactly(token: string, key: string)
    ensures KeyOf(token) == Some(key) <==> token == "--" + key || (|key| == 1 && key != "-" && token == "-" + key)
  {
    if |token| >= 2 && token[0] == '-' && token[1] == '-' {
      assert token == "--" + token[2..];
      assert |key| == 1 && token == "-" + key ==> key[0] == token[1] && key == "-";
    } else if |token| == 2 && token[0] == '-' {
      assert token == "-" + token[1..];
    }
  }

  /** The definition may be written with this key: it is its name, one of its aliases, or
      `no-` and the name of a boolean that is on by default or describes its negation. */
  predicate Claims(option: Named, key: string)
  {
    var d := option.definition;
    && !d.kind.PositionalArg?
    && (key == option.name || key in d.aliases
        || (d.kind.BooleanArg? && (d.defaultTrue || d.negativeDescription) && key == "no-" + option.name))
  }

  lemma {:induction false} SetAllExactly(m: OptionMap, keys: seq<string>, option: Named, key: string)
    ensures var r := SetAll(m, keys, option);
            && (key in r <==> key in m || key in keys)
            && (key in r ==> r[key] == if key in keys then option else m[key])
    decreases |keys|
  {
    if keys != [] {
      SetAllExactly(m, keys[..|keys| - 1], option, key);
      assert keys == keys[..|keys| - 1] + [keys[|keys| - 1]];
    }
  }

  lemma AddOptionExactly(m: OptionMap, option: Named, key: string)
    requires !option.definition.kind.PositionalArg?
    ensures var r := AddOption(m, option);
            && (key in r <==> key in m || Claims(option, key))
            && (key in r ==> r[key] == if Claims(option, key) then option else m[key])
  {
    SetAllExactly(m[option.name := option], option.definition.aliases, option, key);
    hide SetAll;
  }

  lemma PositionalClaimsNothing(option: Named, key: string)
    requires option.definition.kind.PositionalArg?
    ensures !Claims(option, key)
  {}

  /** A key stands for the last definition that may be written with it. */
  lemma {:induction false} AllOptionsExactly(defs: seq<Named>, key: string)
    ensures key in AllOptions(defs) <==> exists i :: 0 <= i < |defs| && Claims(defs[i], key)
    ensures key in AllOptions(defs) ==>
              exists i :: 0 <= i < |defs| && Claims(defs[i], key) && AllOptions(defs)[key] == defs[i]
                          && forall j :: i < j < |defs| ==> !Claims(defs[j], key)
    decreases |defs|
  {
    if defs != [] {
      hide AddOption, Claims;
      var n := |defs| - 1;
      var front, last := defs[..n], defs[n];
      assert defs == front + [last];
      AllOptionsExactly(front, key);
      if last.definition.kind.PositionalArg? {
        PositionalClaimsNothing(last, key);
      } else {
        AddOptionExactly(AllOptions(front), last, key);
      }
      if Claims(last, key) {
        assert Claims(defs[n], key);
      } else if key in AllOptions(front) {
        var i :| 0 <= i < n && Claims(front[i], key) && AllOptions(front)[key] == front[i]
                 && forall j :: i < j < n ==> !Claims(front[j], key);
        assert Claims(defs[i], key);
      }
    }
  }

  // ---- One pass over the tokens -------------------------------------------------------------

  const DELIMITER := "--"

  predicate IsOperand(token: string)
  {
    token == "" || token[0] != '-' || token == "-"
  }

  /** The part of an option token before its first `=`. */
  function Head(token: string): string
  {
    var i := IndexOf(token, '=');
    if i < 0 then token else token[..i]
  }

  /** How the tokens divide: operands, flags, options with their values, and what
      follows a delimiter. */
  datatype Item =
    | Operand(value: string)
    | Flag(token: string, option: Named)
    | Inline(head: string, option: Named, value: string)
    | Separate(token: string, option: Named, value: string)
    | Delimiter
    | Rest(value: string)

  datatype Error =
    | UnknownOption(token: string)
    | DuplicateOption(name: string)
    | UnexpectedValue(token: string)
    | MissingValue(token: string)
    | UnexpectedArgument(value: string)
    | InvalidChoice(name: string)

  datatype Parsed = Items(items: seq<Item>) | Failed(error: Error)

  /** What one option token turns out to be. */
  datatype Reading = Reads(item: Item) | Refuses(error: Error)

  predicate IsOptionItem(item: Item)
  {
    item.Flag? || item.Inline? || item.Separate?
  }

  function RenderItem(item: Item): (tokens: seq<string>)
    ensures |tokens| > 0
  {
    match item
    case Operand(value) => [value]
    case Flag(token, _) => [token]
    case Inline(head, _, value) => [head + "=" + value]
    case Separate(token, _, value) => [token, value]
    case Delimiter => [DELIMITER]
    case Rest(value) => [value]
  }

  /** The tokens a list of items stands for. */
  function Render(items: seq<Item>): seq<string>
  {
    if items == [] then [] else RenderItem(items[0]) + Render(items[1..])
  }

  /** What follows the first `=` of an option token. */
  function InlineValue(token: string): Option<string>
  {
    var i := IndexOf(token, '=');
    if i < 0 then None else Some(token[i + 1..])
  }

  function NextToken(tokens: seq<string>): Option<string>
  {
    if |tokens| >= 2 then Some(tokens[1]) else None
  }

  /** One option token, given its head, its inline value and the token after it. */
  function ReadParts(options: OptionMap, token: string, head: string, inline: Option<string>, next: Option<string>,
                     seen: set<string>): (r: Reading)
    ensures r.Reads? ==> IsOptionItem(r.item) && |RenderItem(r.item)| == if r.item.Separate? then 2 else 1
    ensures r.Reads? && r.item.Separate? ==> next.Some?
  {
    match Resolve(options, head)
    case None => Refuses(UnknownOption(head))
    case Some(option) =>
      if option.name in seen && !option.definition.multiple then Refuses(DuplicateOption(option.name))
      else if option.definition.kind.BooleanArg? then
        if inline.Some? then Refuses(UnexpectedValue(head)) else Reads(Flag(token, option))
      else if !IsValueArgument(option.definition) then Reads(Flag(token, option))
      else if inline.Some? then
        if inline.value == "" then Refuses(MissingValue(head)) else Reads(Inline(head, option, inline.value))
      else if next.None? || next.value == "" || Resolve(options, next.value).Some? then Refuses(MissingValue(head))
      else Reads(Separate(token, option, next.value))
  }

  function ReadOption(options: OptionMap, tokens: seq<string>, seen: set<string>): (r: Reading)
    requires tokens != []
    ensures r.Reads? ==> IsOptionItem(r.item) && |RenderItem(r.item)| <= |tokens|
  {
    ReadParts(options, tokens[0], Head(tokens[0]), InlineValue(tokens[0]), NextToken(tokens), seen)
  }

  /** Why an option token is refused: it names no option; one already given that may be
      given once; a boolean with a value; or a value option without one - none at all, an
      empty one, or the next token when that names an option itself. */
  lemma RefusedExactly(options: OptionMap, tokens: seq<string>, seen: set<string>)
    requires tokens != []
    ensures var r, head := ReadOption(options, tokens, seen), Head(tokens[0]);
            var option, inline := Resolve(options, head), InlineValue(tokens[0]);
            var known := option.Some?;
            var again := known && option.value.name in seen && !option.value.definition.multiple;
            var boolean := known && option.value.definition.kind.BooleanArg?;
            var valued := known && IsValueArgument(option.value.definition);
            var noValue := if inline.Some? then inline.value == ""
                           else |tokens| < 2 || tokens[1] == "" || Resolve(options, tokens[1]).Some?;
            && (r == Refuses(UnknownOption(head)) <==> !known)
            && (known ==> (r == Refuses(DuplicateOption(option.value.name)) <==> again))
            && (r == Refuses(UnexpectedValue(head)) <==> boolean && !again && inline.Some?)
            && (r == Refuses(MissingValue(head)) <==> valued && !again && noValue)
            && (r.Reads? <==> known && !again && !(boolean && inline.Some?) && !(valued && noValue))
  {
    hide Resolve, Head, InlineValue;
  }

  function Before(first: seq<Item>, rest: Parsed): Parsed
  {
    if rest.Failed? then rest else Items(first + rest.items)
  }

  function RestOf(tokens: seq<string>): (r: seq<Item>)
    ensures |r| == |tokens|
    ensures forall i :: 0 <= i < |r| ==> r[i] == Rest(tokens[i])
  {
    seq(|tokens|, i requires 0 <= i < |tokens| => Rest(tokens[i]))
  }

  function Parse(options: OptionMap, tokens: seq<string>, seen: set<string>): Parsed
    decreases |tokens|
  {
    if tokens == [] then Items([])
    else if tokens[0] == DELIMITER then Items([Delimiter] + RestOf(tokens[1..]))
    else if IsOperand(tokens[0]) then Before([Operand(tokens[0])], Parse(options, tokens[1..], seen))
    else
      match ReadOption(options, tokens, seen)
      case Refuses(error) => Failed(error)
      case Reads(item) =>
        Before([item], Parse(options, tokens[|RenderItem(item)|..], seen + {item.option.name}))
  }

  /** The values that count as positional arguments, in order. */
  function Operands(items: seq<Item>): seq<string>
    decreases |items|
  {
    if items == [] then []
    else
      var last := items[|items| - 1];
      Operands(items[..|items| - 1]) + if last.Operand? || last.Rest? then [last.value] else []
  }

  function Positionals(defs: seq<Named>): seq<Named>
    decreases |defs|
  {
    if defs == [] then []
    else
      var last := defs[|defs| - 1];
      Positionals(defs[..|defs| - 1]) + if last.definition.kind.PositionalArg? then [last] else []
  }

  /** The places of the positionals among the first n definitions. */
  function PositionalPlaces(defs: seq<Named>, n: nat): set<nat>
    requires n <= |defs|
  {
    set k | 0 <= k < n && defs[k].definition.kind.PositionalArg?
  }

  lemma PlacesSnoc(defs: seq<Named>, i: nat)
    requires i < |defs|
    ensures PositionalPlaces(defs, i) == PositionalPlaces(defs[..|defs| - 1], i)
    ensures i == |defs| - 1 ==>
              |PositionalPlaces(defs, i + 1)| == |PositionalPlaces(defs, i)| + if defs[i].definition.kind.PositionalArg? then 1 else 0
  {
    if i == |defs| - 1 {
      assert PositionalPlaces(defs, i + 1) == PositionalPlaces(defs, i) + if defs[i].definition.kind.PositionalArg? then {i} else {};
    }
  }

  /** Every positional definition, and no other, is among the positionals, at the place
      given by how many come before it. */
  lemma {:induction false} PositionalsExactly(defs: seq<Named>, i: nat)
    ensures |Positionals(defs)| == |PositionalPlaces(defs, |defs|)|
    ensures i < |defs| && defs[i].definition.kind.PositionalArg? ==>
              && |PositionalPlaces(defs, i)| < |Positionals(defs)|
              && Positionals(defs)[|PositionalPlaces(defs, i)|] == defs[i]
    decreases |defs|
  {
    if defs == [] {
      assert PositionalPlaces(defs, 0) == {};
    } else {
      hide PositionalPlaces;
      var n := |defs| - 1;
      PositionalsExactly(defs[..n], if i < n then i else 0);
      PlacesSnoc(defs, n);
      if i < n {
        PlacesSnoc(defs, i);
        assert defs[..n][i] == defs[i];
      }
    }
  }

  predicate ChoiceAllowed(positional: Named, value: string)
  {
    positional.definition.options.None? || value in positional.definition.options.value
  }

  function FirstBadChoice(positionals: seq<Named>, supplied: seq<string>, i: nat): Option<Error>
    requires |supplied| <= |positionals| && i <= |supplied|
    decreases |supplied| - i
  {
    if i == |supplied| then None
    else if !ChoiceAllowed(positionals[i], supplied[i]) then Some(InvalidChoice(positionals[i].name))
    else FirstBadChoice(positionals, supplied, i + 1)
  }

  function OperandError(positionals: seq<Named>, supplied: seq<string>): Option<Error>
  {
    if |supplied| > |positionals| then Some(UnexpectedArgument(supplied[|positionals|]))
    else FirstBadChoice(positionals, supplied, 0)
  }

  function Validate(tokens: seq<string>, defs: seq<Named>): Option<Error>
  {
    match Parse(AllOptions(defs), tokens, {})
    case Failed(error) => Some(error)
    case Items(items) => OperandError(Positionals(defs), Operands(items))
  }

  // ---- validateTokens -----------------------------------------------------------------------

  lemma BeforeBefore(a: seq<Item>, b: seq<Item>, rest: Parsed)
    ensures Before(a, Before(b, rest)) == Before(a + b, rest)
  {
    if rest.Items? {
      assert a + (b + rest.items) == a + b + rest.items;
    }
  }

  lemma OperandsSnoc(items: seq<Item>, item: Item)
    ensures Operands(items + [item]) == Operands(items) + if item.Operand? || item.Rest? then [item.value] else []
  {
    assert (items + [item])[..|items|] == items;
  }

  method FilterPositionals(defs: seq<Named>) returns (positionals: seq<Named>)
    ensures positionals == Positionals(defs)
  {
    positionals := [];
    for i := 0 to |defs|
      invariant positionals == Positionals(defs[..i])
    {
      assert defs[..i + 1][..i] == defs[..i];
      if defs[i].definition.kind.PositionalArg? {
        positionals := positionals + [defs[i]];
      }
    }
    assert defs[..|defs|] == defs;
  }

  /** What is left to do after some items: the rest of the tokens, or only operands. */
  ghost function Remaining(options: OptionMap, done: seq<Item>, tokens: seq<string>, seen: set<string>, after: bool): Parsed
  {
    Before(done, if after then Items(RestOf(tokens)) else Parse(options, tokens, seen))
  }

  lemma RemainingStep(options: OptionMap, done: seq<Item>, tokens: seq<string>, seen: set<string>, item: Item)
    requires tokens != [] && !IsOperand(tokens[0]) && tokens[0] != DELIMITER
    requires ReadOption(options, tokens, seen) == Reads(item)
    ensures Remaining(options, done, tokens, seen, false)
            == Remaining(options, done + [item], tokens[|RenderItem(item)|..], seen + {item.option.name}, false)
  {
    BeforeBefore(done, [item], Parse(options, tokens[|RenderItem(item)|..], seen + {item.option.name}));
  }

  lemma RemainingOperand(options: OptionMap, done: seq<Item>, tokens: seq<string>, seen: set<string>, after: bool)
    requires tokens != [] && (after || (tokens[0] != DELIMITER && IsOperand(tokens[0])))
    ensures var item := if after then Rest(tokens[0]) else Operand(tokens[0]);
            Remaining(options, done, tokens, seen, after) == Remaining(options, done + [item], tokens[1..], seen, after)
  {
    if after {
      assert RestOf(tokens) == [Rest(tokens[0])] + RestOf(tokens[1..]);
      BeforeBefore(done, [Rest(tokens[0])], Items(RestOf(tokens[1..])));
    } else {
      BeforeBefore(done, [Operand(tokens[0])], Parse(options, tokens[1..], seen));
    }
  }

  lemma RemainingDelimiter(options: OptionMap, done: seq<Item>, tokens: seq<string>, seen: set<string>)
    requires tokens != [] && tokens[0] == DELIMITER
    ensures Remaining(options, done, tokens, seen, false) == Remaining(options, done + [Delimiter], tokens[1..], seen, true)
  {
    BeforeBefore(done, [Delimiter], Items(RestOf(tokens[1..])));
  }

  method SplitAtEquals(token: string) returns (head: string, inline: Option<string>)
    ensures head == Head(token) && inline == InlineValue(token)
  {
    var equalsIndex := IndexOf(token, '=');
    head := if equalsIndex == -1 then token else token[..equalsIndex];
    inline := if equalsIndex == -1 then None else Some(token[equalsIndex + 1..]);
  }

  /** The part of the loop body that handles an option token: how many tokens it takes,
      and the options seen by then. */
  method TakeOption(options: OptionMap, token: string, following: Option<string>, seen: set<string>)
      returns (error: Option<Error>, taken: nat, seenAfter: set<string>)
    ensures var reading := ReadParts(options, token, Head(token), InlineValue(token), following, seen);
            if reading.Refuses? then error == Some(reading.error)
            else error == None && taken == |RenderItem(reading.item)| && seenAfter == seen + {reading.item.option.name}
  {
    hide Head, InlineValue, Resolve;
    taken, seenAfter := 1, seen;
    var optionToken, inline := SplitAtEquals(token);
    var option := Resolve(options, optionToken);
    if option.None? {
      return Some(UnknownOption(optionToken)), taken, seenAfter;
    }
    if option.value.name in seen && !option.value.definition.multiple {
      return Some(DuplicateOption(option.value.name)), taken, seenAfter;
    }
    seenAfter := seen + {option.value.name};
    if option.value.definition.kind.BooleanArg? {
      if inline.Some? {
        return Some(UnexpectedValue(optionToken)), taken, seenAfter;
      }
      return None, taken, seenAfter;
    }
    if !IsValueArgument(option.value.definition) {
      return None, taken, seenAfter;
    }
    var value := if inline.Some? then inline else following;
    if value.None? || value.value == "" || (inline.None? && Resolve(options, value.value).Some?) {
      return Some(MissingValue(optionToken)), taken, seenAfter;
    }
    if inline.None? {
      taken := 2;
    }
    return None, taken, seenAfter;
  }

  method ValidateTokens(rawArgs: seq<string>, defs: seq<Named>) returns (error: Option<Error>)
    ensures error == Validate(rawArgs, defs)
  {
    var options := BuildOptionMap(defs);
    var positionals := FilterPositionals(defs);
    hide Parse, AllOptions, Positionals, ReadOption, ReadParts, IsOperand, Operands, OperandError, Remaining, RenderItem;
    var seen: set<string> := {};
    var supplied: seq<string> := [];
    var afterDelimiter := false;
    ghost var done: seq<Item> := [];
    var index := 0;
    ParseIsRemaining(options, rawArgs);
    assert rawArgs[0..] == rawArgs;
    while index < |rawArgs|
      invariant 0 <= index <= |rawArgs|
      invariant Parse(options, rawArgs, {}) == Remaining(options, done, rawArgs[index..], seen, afterDelimiter)
      invariant supplied == Operands(done)
    {
      ghost var tokens := rawArgs[index..];
      var token := rawArgs[index];
      assert tokens[0] == token && tokens[1..] == rawArgs[index + 1..];
      if afterDelimiter {
        RemainingOperand(options, done, tokens, seen, true);
        OperandsSnoc(done, Rest(token));
        done, supplied, index := done + [Rest(token)], supplied + [token], index + 1;
      } else if token == DELIMITER {
        RemainingDelimiter(options, done, tokens, seen);
        OperandsSnoc(done, Delimiter);
        done, afterDelimiter, index := done + [Delimiter], true, index + 1;
      } else if IsOperand(token) {
        RemainingOperand(options, done, tokens, seen, false);
        OperandsSnoc(done, Operand(token));
        done, supplied, index := done + [Operand(token)], supplied + [token], index + 1;
      } else {
        var following := if index + 1 < |rawArgs| then Some(rawArgs[index + 1]) else None;
        var refusal, taken, seenAfter := TakeOption(options, token, following, seen);
        ReadOptionParts(options, tokens, following, seen);
        if refusal.Some? {
          RefusedIsError(rawArgs, defs, options, done, tokens, seen);
          return refusal;
        }
        ghost var item := ReadOption(options, tokens, seen).item;
        RemainingStep(options, done, tokens, seen, item);
        OperandsSnoc(done, item);
        assert tokens[taken..] == rawArgs[index + taken..];
        done, seen, index := done + [item], seenAfter, index + taken;
      }
    }
    assert rawArgs[index..] == [];
    DoneParse(options, done, seen, afterDelimiter);
    error := CheckOperands(positionals, supplied);
  }

  lemma ParseIsRemaining(options: OptionMap, tokens: seq<string>)
    ensures Parse(options, tokens, {}) == Remaining(options, [], tokens, {}, false)
    ensures Operands([]) == []
  {
    hide Parse;
    if Parse(options, tokens, {}).Items? {
      assert [] + Parse(options, tokens, {}).items == Parse(options, tokens, {}).items;
    }
  }

  lemma ReadOptionParts(options: OptionMap, tokens: seq<string>, following: Option<string>, seen: set<string>)
    requires tokens != [] && following == NextToken(tokens)
    ensures ReadOption(options, tokens, seen)
            == ReadParts(options, tokens[0], Head(tokens[0]), InlineValue(tokens[0]), following, seen)
  {
    hide ReadParts, Head, InlineValue;
  }

  lemma DoneParse(options: OptionMap, done: seq<Item>, seen: set<string>, after: bool)
    ensures Remaining(options, done, [], seen, after) == Items(done)
  {}

  lemma RefusedIsError(rawArgs: seq<string>, defs: seq<Named>, options: OptionMap, done: seq<Item>, tokens: seq<string>, seen: set<string>)
    requires tokens != [] && !IsOperand(tokens[0]) && tokens[0] != DELIMITER && options == AllOptions(defs)
    requires Parse(options, rawArgs, {}) == Remaining(options, done, tokens, seen, false)
    requires ReadOption(options, tokens, seen).Refuses?
    ensures Validate(rawArgs, defs) == Some(ReadOption(options, tokens, seen).error)
  {
    hide ReadOption, AllOptions;
    assert Parse(options, tokens, seen) == Failed(ReadOption(options, tokens, seen).error);
  }

  method CheckOperands(positionals: seq<Named>, supplied: seq<string>) returns (error: Option<Error>)
    ensures error == OperandError(positionals, supplied)
  {
    if |supplied| > |positionals| {
      return Some(UnexpectedArgument(supplied[|positionals|]));
    }
    for i := 0 to |supplied|
      invariant FirstBadChoice(positionals, supplied, i) == FirstBadChoice(positionals, supplied, 0)
    {
      var options := positionals[i].definition.options;
      if options.Some? && supplied[i] !in options.value {
        return Some(InvalidChoice(positionals[i].name));
      }
    }
    return None;
  }

  // ---- What is accepted ---------------------------------------------------------------------

  /** An option item as it may be written, apart from repetition. */
  ghost predicate WellFormedOption(options: OptionMap, item: Item)
  {
    match item
    case Flag(token, option) =>
      && !IsOperand(token) && token != DELIMITER
      && Resolve(options, Head(token)) == Some(option) && !IsValueArgument(option.definition)
      && (option.definition.kind.BooleanArg? ==> '=' !in token)
    case Inline(head, option, value) =>
      && head != "" && head[0] == '-' && '=' !in head && value != ""
      && Resolve(options, head) == Some(option) && IsValueArgument(option.definition)
    case Separate(token, option, value) =>
      && !IsOperand(token) && token != DELIMITER && '=' !in token
      && value != "" && Resolve(options, value) == None
      && Resolve(options, token) == Some(option) && IsValueArgument(option.definition)
    case _ => false
  }

  /** A well-formed command line: options with their values, each non-repeatable one at
      most once, mixed with operands; after a delimiter, anything. */
  ghost predicate WellFormed(options: OptionMap, items: seq<Item>, seen: set<string>)
  {
    if items == [] then true
    else
      match items[0]
      case Operand(value) => IsOperand(value) && WellFormed(options, items[1..], seen)
      case Delimiter => forall i :: 1 <= i < |items| ==> items[i].Rest?
      case Rest(_) => false
      case _ =>
        && WellFormedOption(options, items[0])
        && (items[0].option.name in seen ==> items[0].option.definition.multiple)
        && WellFormed(options, items[1..], seen + {items[0].option.name})
  }

  lemma HeadInline(head: string, value: string)
    requires '=' !in head
    ensures IndexOf(head + "=" + value, '=') == |head|
    ensures Head(head + "=" + value) == head && InlineValue(head + "=" + value) == Some(value)
  {
    IndexOfFirst(head, '=', value);
    assert head + "=" + value == head + ['='] + value;
  }

  lemma HeadPlain(token: string)
    ensures IndexOf(token, '=') < 0 <==> '=' !in token
    ensures '=' !in token ==> Head(token) == token
    ensures '=' !in Head(token)
  {
    var i := IndexOf(token, '=');
    if i >= 0 {
      assert token[i] == '=';
    }
  }

  /** An inline option never reads as an operand or as the delimiter. */
  lemma InlineToken(head: string, value: string)
    requires head != "" && head[0] == '-'
    ensures var token := head + "=" + value; !IsOperand(token) && token != DELIMITER
  {
    var token := head + "=" + value;
    assert token[0] == '-' && |token| >= 2;
    assert token[|head|] == '=';
  }

  lemma HeadStarts(token: string)
    requires !IsOperand(token)
    ensures Head(token) != "" && Head(token)[0] == '-'
  {
    assert IndexOf(token, '=') != 0;
  }

  lemma HeadSlice(token: string)
    ensures Head(token) == if IndexOf(token, '=') == -1 then token else token[..IndexOf(token, '=')]
  {}

  /** The parts of an option token, put together again, are the token. */
  lemma TokenParts(token: string)
    requires !IsOperand(token)
    ensures Head(token) != "" && Head(token)[0] == '-' && '=' !in Head(token)
    ensures InlineValue(token).Some? ==> token == Head(token) + "=" + InlineValue(token).value
    ensures InlineValue(token).None? ==> '=' !in token && Head(token) == token
  {
    HeadPlain(token);
    HeadStarts(token);
    HeadSlice(token);
    var i := IndexOf(token, '=');
    if i >= 0 {
      assert token == token[..i] + [token[i]] + token[i + 1..];
    }
  }

  /** Reading an option token gives a well-formed item that renders to it, and reads
      every such item back. */
  lemma ReadIsWellFormed(options: OptionMap, tokens: seq<string>, seen: set<string>)
    requires tokens != [] && !IsOperand(tokens[0]) && tokens[0] != DELIMITER
    ensures var r := ReadOption(options, tokens, seen);
            r.Reads? ==>
              && WellFormedOption(options, r.item)
              && (r.item.option.name in seen ==> r.item.option.definition.multiple)
              && RenderItem(r.item) == tokens[..|RenderItem(r.item)|]
  {
    TokenParts(tokens[0]);
    hide Resolve, Head, InlineValue, IsOperand;
    assert [tokens[0]] == tokens[..1];
    assert |tokens| >= 2 ==> [tokens[0], tokens[1]] == tokens[..2];
  }

  lemma WellFormedReads(options: OptionMap, item: Item, rest: seq<string>, seen: set<string>)
    requires IsOptionItem(item) && WellFormedOption(options, item)
    requires item.option.name in seen ==> item.option.definition.multiple
    ensures var tokens := RenderItem(item) + rest;
            && ReadOption(options, tokens, seen) == Reads(item)
            && !IsOperand(tokens[0]) && tokens[0] != DELIMITER
            && tokens[|RenderItem(item)|..] == rest
  {
    var tokens := RenderItem(item) + rest;
    hide Resolve;
    match item
    case Flag(token, option) =>
      assert tokens[0] == token;
      HeadPlain(token);
    case Inline(head, option, value) =>
      assert tokens[0] == head + "=" + value;
      HeadInline(head, value);
      InlineToken(head, value);
    case Separate(token, option, value) =>
      assert tokens[0] == token && tokens[1] == value;
      HeadPlain(token);
  }

  lemma ConsOf(item: Item, rest: seq<Item>)
    ensures Render([item] + rest) == RenderItem(item) + Render(rest)
    ensures ([item] + rest)[0] == item && ([item] + rest)[1..] == rest
  {
    assert ([item] + rest)[1..] == rest;
  }

  lemma {:induction false} RenderRest(tokens: seq<string>)
    ensures Render(RestOf(tokens)) == tokens
    decreases |tokens|
  {
    hide RestOf;
    if tokens != [] {
      assert RestOf(tokens) == [Rest(tokens[0])] + RestOf(tokens[1..]);
      RenderRest(tokens[1..]);
      ConsOf(Rest(tokens[0]), RestOf(tokens[1..]));
      hide Render;
      assert tokens == [tokens[0]] + tokens[1..];
    }
  }

  lemma DelimiterWellFormed(options: OptionMap, tail: seq<string>, seen: set<string>)
    ensures Parse(options, [DELIMITER] + tail, seen) == Items([Delimiter] + RestOf(tail))
    ensures WellFormed(options, [Delimiter] + RestOf(tail), seen)
    ensures Render([Delimiter] + RestOf(tail)) == [DELIMITER] + tail
  {
    RenderRest(tail);
    ConsOf(Delimiter, RestOf(tail));
    assert ([DELIMITER] + tail)[1..] == tail;
  }

  lemma WellFormedCons(options: OptionMap, item: Item, rest: seq<Item>, seen: set<string>)
    requires IsOptionItem(item) ==>
               && WellFormedOption(options, item) && (item.option.name in seen ==> item.option.definition.multiple)
               && WellFormed(options, rest, seen + {item.option.name})
    requires !IsOptionItem(item) ==> item.Operand? && IsOperand(item.value) && WellFormed(options, rest, seen)
    ensures WellFormed(options, [item] + rest, seen)
    ensures item.Operand? ==> RenderItem(item) == [item.value]
  {
    hide WellFormedOption, IsOperand;
    assert ([item] + rest)[1..] == rest;
  }

  lemma Reassembled(options: OptionMap, tokens: seq<string>, item: Item, rest: seq<Item>, seen: set<string>)
    requires IsOptionItem(item) && WellFormedOption(options, item)
    requires item.option.name in seen ==> item.option.definition.multiple
    requires |RenderItem(item)| <= |tokens| && RenderItem(item) == tokens[..|RenderItem(item)|]
    requires WellFormed(options, rest, seen + {item.option.name}) && Render(rest) == tokens[|RenderItem(item)|..]
    ensures WellFormed(options, [item] + rest, seen) && Render([item] + rest) == tokens
  {
    hide WellFormedOption, WellFormed, RenderItem, Render;
    ConsOf(item, rest);
    WellFormedCons(options, item, rest, seen);
  }

  /** The scanner accepts only well-formed lines, and takes apart exactly what is there. */
  lemma {:induction false} ParseIsWellFormed(options: OptionMap, tokens: seq<string>, seen: set<string>)
    ensures var r := Parse(options, tokens, seen);
            r.Items? ==> WellFormed(options, r.items, seen) && Render(r.items) == tokens
    decreases |tokens|
  {
    hide IsOperand, ReadOption, WellFormedOption, RestOf, RenderItem;
    var r := Parse(options, tokens, seen);
    if tokens != [] && r.Items? {
      hide WellFormed, Render;
      if tokens[0] == DELIMITER {
        hide Parse;
        DelimiterWellFormed(options, tokens[1..], seen);
        assert tokens == [DELIMITER] + tokens[1..];
      } else if IsOperand(tokens[0]) {
        var rest := Parse(options, tokens[1..], seen).items;
        ParseIsWellFormed(options, tokens[1..], seen);
        assert r.items == [Operand(tokens[0])] + rest;
        hide Parse;
        ConsOf(Operand(tokens[0]), rest);
        WellFormedCons(options, Operand(tokens[0]), rest, seen);
        assert tokens == [tokens[0]] + tokens[1..];
      } else {
        ReadIsWellFormed(options, tokens, seen);
        var item := ReadOption(options, tokens, seen).item;
        var n := |RenderItem(item)|;
        var seen' := seen + {item.option.name};
        var rest := Parse(options, tokens[n..], seen').items;
        ParseIsWellFormed(options, tokens[n..], seen');
        assert r.items == [item] + rest;
        hide Parse;
        Reassembled(options, tokens, item, rest, seen);
      }
    }
  }

  lemma {:induction false} RestRenders(items: seq<Item>)
    requires forall i :: 0 <= i < |items| ==> items[i].Rest?
    ensures RestOf(Render(items)) == items
    decreases |items|
  {
    if items != [] {
      RestRenders(items[1..]);
      assert Render(items) == [items[0].value] + Render(items[1..]);
      assert items == [items[0]] + items[1..];
    }
  }

  /** ... and it accepts every well-formed line, reading back the items it was written
      from: no two readings of a line compete. */
  lemma {:induction false} WellFormedParses(options: OptionMap, items: seq<Item>, seen: set<string>)
    requires WellFormed(options, items, seen)
    ensures Parse(options, Render(items), seen) == Items(items)
    decreases |items|
  {
    if items != [] {
      var item, rest := items[0], items[1..];
      var tokens := Render(items);
      assert items == [item] + rest;
      if item.Operand? {
        WellFormedParses(options, rest, seen);
        assert tokens[0] == item.value && tokens[1..] == Render(rest);
      } else if item.Delimiter? {
        RestRenders(rest);
        assert tokens[0] == DELIMITER && tokens[1..] == Render(rest);
      } else {
        WellFormedParses(options, rest, seen + {item.option.name});
        WellFormedReads(options, item, Render(rest), seen);
      }
    }
  }

  lemma {:induction false} BadChoiceExactly(positionals: seq<Named>, supplied: seq<string>, i: nat)
    requires |supplied| <= |positionals| && i <= |supplied|
    ensures FirstBadChoice(positionals, supplied, i) == None <==>
            forall k :: i <= k < |supplied| ==> ChoiceAllowed(positionals[k], supplied[k])
    decreases |supplied| - i
  {
    if i < |supplied| {
      BadChoiceExactly(positionals, supplied, i + 1);
    }
  }

  /** The operands of a line fit the declared positional arguments. */
  ghost predicate OperandsFit(positionals: seq<Named>, supplied: seq<string>)
  {
    && |supplied| <= |positionals|
    && forall k :: 0 <= k < |supplied| ==> ChoiceAllowed(positionals[k], supplied[k])
  }

  /** A token list is accepted exactly when it is the rendering of a well-formed line
      whose operands fit, and then of only one. */
  lemma AcceptedExactly(tokens: seq<string>, defs: seq<Named>)
    ensures Validate(tokens, defs) == None <==>
            exists items :: WellFormed(AllOptions(defs), items, {}) && Render(items) == tokens
                            && OperandsFit(Positionals(defs), Operands(items))
    ensures forall a, b :: (&& WellFormed(AllOptions(defs), a, {}) && Render(a) == tokens
                            && WellFormed(AllOptions(defs), b, {}) && Render(b) == tokens) ==> a == b
  {
    hide AllOptions, Parse, WellFormed, Render, Operands, Positionals;
    var options := AllOptions(defs);
    ParseIsWellFormed(options, tokens, {});
    forall items | WellFormed(options, items, {}) && Render(items) == tokens
      ensures Parse(options, tokens, {}) == Items(items)
    {
      WellFormedParses(options, items, {});
    }
    var r := Parse(options, tokens, {});
    if r.Items? && |Operands(r.items)| <= |Positionals(defs)| {
      BadChoiceExactly(Positionals(defs), Operands(r.items), 0);
    }
  }

  // ---- collectMultipleValues -----------------------------------------------------------------

  type Lists = map<string, seq<string>>

  function EmptyLists(defs: seq<Named>): Lists
    decreases |defs|
  {
    if defs == [] then map[]
    else
      var front, last := EmptyLists(defs[..|defs| - 1]), defs[|defs| - 1];
      if !last.definition.kind.PositionalArg? && last.definition.multiple then front[last.name := []] else front
  }

  /** A value of an option that is not repeatable is skipped. */
  function Push(lists: Lists, option: Named, value: string): Lists
  {
    if option.definition.multiple && option.name in lists then lists[option.name := lists[option.name] + [value]]
    else lists
  }

  function Gather(options: OptionMap, tokens: seq<string>, lists: Lists): Lists
    decreases |tokens|
  {
    if tokens == [] || tokens[0] == DELIMITER then lists
    else if IsOperand(tokens[0]) then Gather(options, tokens[1..], lists)
    else
      var inline := InlineValue(tokens[0]);
      match Resolve(options, Head(tokens[0]))
      case None => Gather(options, tokens[1..], lists)
      case Some(option) =>
        if !IsValueArgument(option.definition) then Gather(options, tokens[1..], lists)
        else if inline.Some? then Gather(options, tokens[1..], Push(lists, option, inline.value))
        else if |tokens| < 2 then lists
        else Gather(options, tokens[2..], Push(lists, option, tokens[1]))
  }

  function Collect(tokens: seq<string>, defs: seq<Named>): Lists
  {
    Gather(NamedOptions(defs), tokens, EmptyLists(defs))
  }

  method BuildNamedOptions(defs: seq<Named>) returns (options: OptionMap, collected: Lists)
    ensures options == NamedOptions(defs) && collected == EmptyLists(defs)
  {
    options, collected := map[], map[];
    for i := 0 to |defs|
      invariant options == NamedOptions(defs[..i]) && collected == EmptyLists(defs[..i])
    {
      assert defs[..i + 1][..i] == defs[..i];
      var option := defs[i];
      if option.definition.kind.PositionalArg? {
        continue;
      }
      options := options[option.name := option];
      options := SetAliases(options, option);
      if option.definition.multiple {
        collected := collected[option.name := []];
      }
    }
    assert defs[..|defs|] == defs;
  }

  method CollectMultipleValues(rawArgs: seq<string>, defs: seq<Named>) returns (collected: Lists)
    ensures collected == Collect(rawArgs, defs)
  {
    var options;
    options, collected := BuildNamedOptions(defs);
    hide NamedOptions, EmptyLists, Head, InlineValue, Resolve, IsOperand, Push;
    var index := 0;
    assert rawArgs[0..] == rawArgs;
    while index < |rawArgs|
      invariant 0 <= index
      invariant Gather(options, rawArgs[Min(index, |rawArgs|)..], collected) == Collect(rawArgs, defs)
    {
      ghost var tokens := rawArgs[index..];
      var token := rawArgs[index];
      assert tokens[0] == token && tokens[1..] == rawArgs[index + 1..];
      assert |tokens| >= 2 ==> tokens[2..] == rawArgs[index + 2..] && tokens[1] == rawArgs[index + 1];
      if token == DELIMITER {
        return;
      }
      if !IsOperand(token) {
        var optionToken, inline := SplitAtEquals(token);
        var option := Resolve(options, optionToken);
        if option.Some? && IsValueArgument(option.value.definition) {
          var value := if inline.Some? then inline
                       else if index + 1 < |rawArgs| then Some(rawArgs[index + 1]) else None;
          if inline.None? {
            index := index + 1;
          }
          if value.Some? {
            collected := Push(collected, option.value, value.value);
          }
        }
      }
      index := index + 1;
    }
    assert rawArgs[Min(index, |rawArgs|)..] == [];
  }

  function Min(a: nat, b: nat): nat
  {
    if a < b then a else b
  }

  // ---- The two scans agree ----------------------------------------------------------------------

  /** The values a line gives to the option of this name, in order of occurrence. */
  function ValuesOf(items: seq<Item>, name: string): seq<string>
  {
    if items == [] then []
    else
      (if (items[0].Inline? || items[0].Separate?) && items[0].option.name == name then [items[0].value] else [])
      + ValuesOf(items[1..], name)
  }

  /** The items of an accepted token list. */
  function ItemsOf(tokens: seq<string>, defs: seq<Named>): seq<Item>
    requires Validate(tokens, defs) == None
  {
    Parse(AllOptions(defs), tokens, {}).items
  }

  predicate TakesValue(options: OptionMap, key: string)
  {
    key in options && IsValueArgument(options[key].definition)
  }

  /** Both maps send the keys a token can spell to the same value options. */
  ghost predicate SameValueOptions(all: OptionMap, named: OptionMap)
  {
    forall k :: '=' !in k && (TakesValue(all, k) || TakesValue(named, k)) ==>
                  k in all && k in named && all[k] == named[k]
  }

  ghost predicate ListsFit(options: OptionMap, lists: Lists)
  {
    forall k :: k in options ==> (options[k].definition.multiple <==> options[k].name in lists)
  }

  ghost predicate Extends(before: Lists, after: Lists, items: seq<Item>)
  {
    after.Keys == before.Keys && forall n :: n in before ==> after[n] == before[n] + ValuesOf(items, n)
  }

  lemma KeyWithoutEquals(token: string)
    ensures KeyOf(Head(token)).Some? ==> '=' !in KeyOf(Head(token)).value
  {
    HeadPlain(token);
  }

  lemma ValuesOfCons(item: Item, rest: seq<Item>)
    ensures forall n :: ValuesOf([item] + rest, n) ==
              (if (item.Inline? || item.Separate?) && item.option.name == n then [item.value] else []) + ValuesOf(rest, n)
  {
    assert ([item] + rest)[1..] == rest;
  }

  lemma {:induction false} RestHasNoValues(tokens: seq<string>, name: string)
    ensures ValuesOf(RestOf(tokens), name) == []
    decreases |tokens|
  {
    if tokens != [] {
      assert RestOf(tokens)[1..] == RestOf(tokens[1..]);
      RestHasNoValues(tokens[1..], name);
    }
  }

  lemma ValuesOfOne(item: Item, n: string)
    ensures ValuesOf([item], n) == if (item.Inline? || item.Separate?) && item.option.name == n then [item.value] else []
  {
    assert [item][1..] == [];
  }

  lemma PushExtends(lists: Lists, item: Item)
    requires IsOptionItem(item) && (item.option.definition.multiple <==> item.option.name in lists)
    ensures Extends(lists, if item.Flag? then lists else Push(lists, item.option, item.value), [item])
  {
    forall n | n in lists
      ensures ValuesOf([item], n) == if !item.Flag? && item.option.name == n then [item.value] else []
    {
      ValuesOfOne(item, n);
    }
    hide ValuesOf;
    assert forall n :: n in lists ==> lists[n] + [] == lists[n];
  }

  /** One option token: `collectMultipleValues` steps over the same tokens and records
      the same value as `validateTokens` read. */
  lemma GatherOption(all: OptionMap, named: OptionMap, tokens: seq<string>, seen: set<string>, lists: Lists)
    requires SameValueOptions(all, named) && ListsFit(all, lists)
    requires tokens != [] && tokens[0] != DELIMITER && !IsOperand(tokens[0])
    requires ReadOption(all, tokens, seen).Reads?
    ensures var item := ReadOption(all, tokens, seen).item;
            var next := if item.Flag? then lists else Push(lists, item.option, item.value);
            && Gather(named, tokens, lists) == Gather(named, tokens[|RenderItem(item)|..], next)
            && Extends(lists, next, [item])
  {
    hide IsOperand, Head;
    KeyWithoutEquals(tokens[0]);
    var item := ReadOption(all, tokens, seen).item;
    var key := KeyOf(Head(tokens[0])).value;
    assert key in all && all[key] == item.option;
    PushExtends(lists, item);
    hide Extends, Push;
    if item.Flag? {
      assert !TakesValue(all, key);
    } else {
      assert named[key] == all[key];
    }
  }

  lemma SingleValue(item: Item, rest: seq<Item>, n: string)
    ensures ValuesOf([item] + rest, n) == ValuesOf([item], n) + ValuesOf(rest, n)
  {
    assert ([item] + rest)[1..] == rest && [item][1..] == [];
  }

  lemma ExtendsOn(a: Lists, b: Lists, c: Lists, item: Item, rest: seq<Item>)
    requires Extends(a, b, [item]) && Extends(b, c, rest)
    ensures Extends(a, c, [item] + rest)
  {
    hide ValuesOf;
    forall n | n in a ensures c[n] == a[n] + ValuesOf([item] + rest, n) {
      assert c[n] == a[n] + ValuesOf([item], n) + ValuesOf(rest, n);
      SingleValue(item, rest, n);
    }
  }

  lemma ExtendsPast(a: Lists, c: Lists, item: Item, rest: seq<Item>)
    requires Extends(a, c, rest) && !item.Inline? && !item.Separate?
    ensures Extends(a, c, [item] + rest)
  {
    ValuesOfCons(item, rest);
    hide ValuesOf;
  }

  lemma ExtendsRest(a: Lists, tokens: seq<string>)
    ensures Extends(a, a, [Delimiter] + RestOf(tokens))
  {
    forall n | n in a ensures a[n] == a[n] + ValuesOf(RestOf(tokens), n) {
      RestHasNoValues(tokens, n);
    }
    ExtendsPast(a, a, Delimiter, RestOf(tokens));
  }

  lemma NothingExtends(lists: Lists)
    ensures Extends(lists, lists, [])
  {
    assert forall n :: n in lists ==> lists[n] + [] == lists[n];
  }

  lemma ListsKeepFit(options: OptionMap, lists: Lists, next: Lists, item: Item)
    requires ListsFit(options, lists) && Extends(lists, next, [item])
    ensures ListsFit(options, next)
  {
    assert forall n :: n in lists <==> n in next;
  }

  lemma {:induction false} GatherIsProjection(
    all: OptionMap, named: OptionMap, tokens: seq<string>, seen: set<string>, lists: Lists)
    requires SameValueOptions(all, named) && ListsFit(all, lists)
    requires Parse(all, tokens, seen).Items?
    ensures Extends(lists, Gather(named, tokens, lists), Parse(all, tokens, seen).items)
    decreases |tokens|
  {
    hide SameValueOptions, Extends, ListsFit, IsOperand;
    if tokens == [] {
      NothingExtends(lists);
    } else if tokens[0] == DELIMITER {
      ExtendsRest(lists, tokens[1..]);
    } else if IsOperand(tokens[0]) {
      GatherIsProjection(all, named, tokens[1..], seen, lists);
      ExtendsPast(lists, Gather(named, tokens[1..], lists), Operand(tokens[0]), Parse(all, tokens[1..], seen).items);
    } else {
      GatherOption(all, named, tokens, seen, lists);
      hide ReadOption, Gather, Push;
      var item := ReadOption(all, tokens, seen).item;
      var rest, seen' := tokens[|RenderItem(item)|..], seen + {item.option.name};
      var next := if item.Flag? then lists else Push(lists, item.option, item.value);
      ListsKeepFit(all, lists, next, item);
      GatherIsProjection(all, named, rest, seen', next);
      ExtendsOn(lists, next, Gather(named, rest, next), item, Parse(all, rest, seen').items);
    }
  }

  // ---- Where the two option maps differ -----------------------------------------------------------

  lemma {:induction false} SetAllGet(m: OptionMap, keys: seq<string>, option: Named)
    ensures forall k :: k in SetAll(m, keys, option) <==> k in m || k in keys
    ensures forall k :: k in SetAll(m, keys, option) ==>
              SetAll(m, keys, option)[k] == if k in keys then option else m[k]
    decreases |keys|
  {
    if keys != [] {
      SetAllGet(m, keys[..|keys| - 1], option);
      assert keys == keys[..|keys| - 1] + [keys[|keys| - 1]];
    }
  }

  lemma AddNamesGet(m: OptionMap, option: Named)
    ensures forall k :: k in AddNames(m, option) <==> k in m || k == option.name || k in option.definition.aliases
    ensures forall k :: k in AddNames(m, option) ==>
              AddNames(m, option)[k] == if k == option.name || k in option.definition.aliases then option else m[k]
  {
    SetAllGet(m[option.name := option], option.definition.aliases, option);
  }

  ghost predicate MapsRelate(defs: seq<Named>, all: OptionMap, named: OptionMap)
  {
    && (forall k :: k in named ==> k in all)
    && (forall k :: k in all && (k !in named || named[k] != all[k]) ==>
          HasNegation(all[k].definition) && k == Negation(all[k].name))
    && (forall k :: k in all ==> all[k] in defs && !all[k].definition.kind.PositionalArg?)
    && (forall k :: k in named ==> named[k] in defs && !named[k].definition.kind.PositionalArg?)
  }

  lemma NamesRelate(defs: seq<Named>, last: Named, all: OptionMap, named: OptionMap)
    requires MapsRelate(defs, all, named) && last in defs && !last.definition.kind.PositionalArg?
    ensures MapsRelate(defs, AddNames(all, last), AddNames(named, last))
  {
    AddNamesGet(all, last);
    AddNamesGet(named, last);
    hide AddNames, Negation, HasNegation;
  }

  lemma NegationRelates(defs: seq<Named>, last: Named, all: OptionMap, named: OptionMap)
    requires MapsRelate(defs, all, named) && last in defs && !last.definition.kind.PositionalArg?
    ensures HasNegation(last.definition) ==> MapsRelate(defs, all[Negation(last.name) := last], named)
  {
    hide Negation, HasNegation;
  }

  lemma MapsStep(defs: seq<Named>, last: Named, all: OptionMap, named: OptionMap)
    requires MapsRelate(defs, all, named)
    ensures MapsRelate(defs + [last], all, named)
    ensures !last.definition.kind.PositionalArg? ==>
              MapsRelate(defs + [last], AddOption(all, last), AddNames(named, last))
  {
    assert last in defs + [last] && forall d :: d in defs ==> d in defs + [last];
    if !last.definition.kind.PositionalArg? {
      NamesRelate(defs + [last], last, all, named);
      NegationRelates(defs + [last], last, AddNames(all, last), AddNames(named, last));
      hide MapsRelate, AddNames;
    }
  }

  /** The two maps differ only where a generated negation is the last to set a key. */
  lemma {:induction false} MapsAlwaysRelate(defs: seq<Named>)
    ensures MapsRelate(defs, AllOptions(defs), NamedOptions(defs))
    decreases |defs|
  {
    if defs != [] {
      var front, last := defs[..|defs| - 1], defs[|defs| - 1];
      assert defs == front + [last];
      MapsAlwaysRelate(front);
      MapsStep(front, last, AllOptions(front), NamedOptions(front));
      hide MapsRelate, AddNames, AddOption;
    }
  }

  lemma {:induction false} EmptyListsExactly(defs: seq<Named>)
    ensures forall n :: n in EmptyLists(defs) <==>
              exists i :: 0 <= i < |defs| && defs[i].name == n && defs[i].definition.multiple
                          && !defs[i].definition.kind.PositionalArg?
    ensures forall n :: n in EmptyLists(defs) ==> EmptyLists(defs)[n] == []
    decreases |defs|
  {
    if defs != [] {
      EmptyListsExactly(defs[..|defs| - 1]);
    }
  }

  lemma MultipleByName(defs: seq<Named>, option: Named)
    requires DistinctNames(defs) && option in defs && !option.definition.kind.PositionalArg?
    ensures option.definition.multiple <==>
            exists i :: 0 <= i < |defs| && defs[i].name == option.name && defs[i].definition.multiple
                        && !defs[i].definition.kind.PositionalArg?
  {
    var j :| 0 <= j < |defs| && defs[j] == option;
  }

  lemma EmptyListsFit(defs: seq<Named>)
    requires DistinctNames(defs)
    ensures ListsFit(AllOptions(defs), EmptyLists(defs)) && ListsFit(NamedOptions(defs), EmptyLists(defs))
  {
    MapsAlwaysRelate(defs);
    EmptyListsExactly(defs);
    hide AllOptions, NamedOptions, EmptyLists;
    forall k | k in AllOptions(defs)
      ensures AllOptions(defs)[k].definition.multiple <==> AllOptions(defs)[k].name in EmptyLists(defs)
    {
      MultipleByName(defs, AllOptions(defs)[k]);
    }
    forall k | k in NamedOptions(defs)
      ensures NamedOptions(defs)[k].definition.multiple <==> NamedOptions(defs)[k].name in EmptyLists(defs)
    {
      MultipleByName(defs, NamedOptions(defs)[k]);
    }
  }

  /** A generated negation has taken over a key that a token can spell from a value
      option of that name or alias. */
  predicate Shadowed(defs: seq<Named>, key: string)
  {
    && '=' !in key && TakesValue(NamedOptions(defs), key)
    && (key !in AllOptions(defs) || AllOptions(defs)[key] != NamedOptions(defs)[key])
  }

  lemma UnshadowedAgree(defs: seq<Named>)
    requires forall k :: !Shadowed(defs, k)
    ensures SameValueOptions(AllOptions(defs), NamedOptions(defs))
  {
    MapsAlwaysRelate(defs);
    hide AllOptions, NamedOptions;
    forall k | '=' !in k && (TakesValue(AllOptions(defs), k) || TakesValue(NamedOptions(defs), k))
      ensures k in AllOptions(defs) && k in NamedOptions(defs) && AllOptions(defs)[k] == NamedOptions(defs)[k]
    {
      assert !Shadowed(defs, k);
    }
  }

  /** No generated negation is the name or an alias of an option. */
  predicate DistinctNegations(defs: seq<Named>)
  {
    forall i :: 0 <= i < |defs| && HasNegation(defs[i].definition) ==> Negation(defs[i].name) !in NamedOptions(defs)
  }

  lemma DistinctNegationsSuffice(defs: seq<Named>)
    requires DistinctNegations(defs)
    ensures forall k :: !Shadowed(defs, k)
  {
    MapsAlwaysRelate(defs);
    hide AllOptions, NamedOptions;
    forall d | d in defs && HasNegation(d.definition) ensures Negation(d.name) !in NamedOptions(defs) {
      var i :| 0 <= i < |defs| && defs[i] == d;
    }
  }

  /** What the two scans promise together: each repeatable option is given exactly its
      values, in order of occurrence. */
  ghost predicate ScansAgree(tokens: seq<string>, defs: seq<Named>)
  {
    Validate(tokens, defs) == None ==> Extends(EmptyLists(defs), Collect(tokens, defs), ItemsOf(tokens, defs))
  }

  lemma AgreeUnshadowed(tokens: seq<string>, defs: seq<Named>)
    requires DistinctNames(defs) && forall k :: !Shadowed(defs, k)
    ensures ScansAgree(tokens, defs)
  {
    hide Shadowed, SameValueOptions, ListsFit, Extends, Parse, AllOptions, NamedOptions, EmptyLists, Gather;
    if Validate(tokens, defs) == None {
      UnshadowedAgree(defs);
      EmptyListsFit(defs);
      GatherIsProjection(AllOptions(defs), NamedOptions(defs), tokens, {}, EmptyLists(defs));
    }
  }

  // ---- Exactly when they agree --------------------------------------------------------------------

  predicate Repeatable(options: OptionMap, key: string)
  {
    '=' !in key && TakesValue(options, key) && options[key].definition.multiple
  }

  /** A shadowed value option that spoils the collection: it is itself repeatable, or
      there is a repeatable option whose value it can swallow. */
  ghost predicate Spoils(defs: seq<Named>, key: string)
  {
    && Shadowed(defs, key)
    && (NamedOptions(defs)[key].definition.multiple || exists j :: Repeatable(AllOptions(defs), j))
  }

  lemma {:induction false} GatherNothing(named: OptionMap, tokens: seq<string>, lists: Lists)
    requires forall k :: !Repeatable(named, k)
    ensures Gather(named, tokens, lists) == lists
    decreases |tokens|
  {
    hide IsOperand, Head;
    if tokens != [] && tokens[0] != DELIMITER {
      KeyWithoutEquals(tokens[0]);
      GatherNothing(named, tokens[1..], lists);
      if |tokens| >= 2 {
        GatherNothing(named, tokens[2..], lists);
      }
      var key := KeyOf(Head(tokens[0]));
      if key.Some? {
        assert !Repeatable(named, key.value);
      }
    }
  }

  lemma ItemNotRepeatable(options: OptionMap, tokens: seq<string>, seen: set<string>, lists: Lists)
    requires ListsFit(options, lists) && forall k :: !Repeatable(options, k)
    requires tokens != [] && ReadOption(options, tokens, seen).Reads?
    ensures var item := ReadOption(options, tokens, seen).item; !item.Flag? ==> item.option.name !in lists
  {
    hide Head;
    KeyWithoutEquals(tokens[0]);
    var key := KeyOf(Head(tokens[0])).value;
    assert !Repeatable(options, key);
  }

  /** Without repeatable options no accepted line gives a value to a repeatable one. */
  lemma {:induction false} NothingToCollect(options: OptionMap, tokens: seq<string>, seen: set<string>, lists: Lists, n: string)
    requires ListsFit(options, lists) && n in lists && forall k :: !Repeatable(options, k)
    requires Parse(options, tokens, seen).Items?
    ensures ValuesOf(Parse(options, tokens, seen).items, n) == []
    decreases |tokens|
  {
    hide IsOperand;
    if tokens == [] {
    } else if tokens[0] == DELIMITER {
      SingleValue(Delimiter, RestOf(tokens[1..]), n);
      ValuesOfOne(Delimiter, n);
      RestHasNoValues(tokens[1..], n);
    } else if IsOperand(tokens[0]) {
      NothingToCollect(options, tokens[1..], seen, lists, n);
      SingleValue(Operand(tokens[0]), Parse(options, tokens[1..], seen).items, n);
      ValuesOfOne(Operand(tokens[0]), n);
    } else {
      var item := ReadOption(options, tokens, seen).item;
      ItemNotRepeatable(options, tokens, seen, lists);
      hide ReadOption, ListsFit;
      var rest, seen' := tokens[|RenderItem(item)|..], seen + {item.option.name};
      NothingToCollect(options, rest, seen', lists, n);
      SingleValue(item, Parse(options, rest, seen').items, n);
      ValuesOfOne(item, n);
    }
  }

  lemma AgreeWithoutRepeatable(tokens: seq<string>, defs: seq<Named>)
    requires DistinctNames(defs)
    requires forall k :: !Repeatable(AllOptions(defs), k)
    requires forall k :: !Repeatable(NamedOptions(defs), k)
    ensures ScansAgree(tokens, defs)
  {
    hide AllOptions, NamedOptions, EmptyLists, Parse, Gather, Repeatable, ListsFit, ValuesOf;
    if Validate(tokens, defs) == None {
      EmptyListsFit(defs);
      EmptyListsExactly(defs);
      GatherNothing(NamedOptions(defs), tokens, EmptyLists(defs));
      forall n | n in EmptyLists(defs) ensures ValuesOf(ItemsOf(tokens, defs), n) == [] {
        NothingToCollect(AllOptions(defs), tokens, {}, EmptyLists(defs), n);
      }
    }
  }

  lemma AgreeUnspoilt(tokens: seq<string>, defs: seq<Named>)
    requires DistinctNames(defs) && forall k :: !Spoils(defs, k)
    ensures ScansAgree(tokens, defs)
  {
    hide AllOptions, NamedOptions, ScansAgree;
    if k :| Shadowed(defs, k) {
      assert !Spoils(defs, k);
      forall j ensures !Repeatable(NamedOptions(defs), j) {
        assert !Spoils(defs, j) && !Repeatable(AllOptions(defs), j);
      }
      AgreeWithoutRepeatable(tokens, defs);
    } else {
      AgreeUnshadowed(tokens, defs);
    }
  }

  /** On every accepted token list, as long as no generated negation spoils it, every
      repeatable option is given exactly its values in order of occurrence. */
  lemma CollectedExactly(tokens: seq<string>, defs: seq<Named>)
    requires DistinctNames(defs) && Validate(tokens, defs) == None && forall k :: !Spoils(defs, k)
    ensures Collect(tokens, defs).Keys == EmptyLists(defs).Keys
    ensures forall n :: n in EmptyLists(defs) ==> Collect(tokens, defs)[n] == ValuesOf(ItemsOf(tokens, defs), n)
  {
    AgreeUnspoilt(tokens, defs);
    EmptyListsExactly(defs);
    hide Collect, EmptyLists, Spoils, Parse, ItemsOf, Validate, ValuesOf, AllOptions;
  }

  /** Definitions whose negations are no names or aliases are never spoilt. */
  lemma DistinctNegationsNeverSpoil(defs: seq<Named>)
    requires DistinctNegations(defs)
    ensures forall k :: !Spoils(defs, k)
  {
    DistinctNegationsSuffice(defs);
    hide Shadowed;
  }

  function Long(key: string): string
  {
    "--" + key
  }

  lemma LongOption(key: string)
    requires key != "" && '=' !in key
    ensures var token := Long(key);
            && KeyOf(token) == Some(key) && Head(token) == token && InlineValue(token) == None
            && !IsOperand(token) && token != DELIMITER
  {
    HeadPlain(Long(key));
    assert Long(key)[2..] == key && |Long(key)| > 2;
  }

  lemma LongInline(key: string)
    requires '=' !in key
    ensures var token := Long(key) + "=" + "v";
            && KeyOf(Head(token)) == Some(key) && InlineValue(token) == Some("v")
            && !IsOperand(token) && token != DELIMITER
  {
    assert '=' !in Long(key);
    HeadInline(Long(key), "v");
    InlineToken(Long(key), "v");
    assert Long(key)[2..] == key;
  }

  /** The boolean option that shadows a key. */
  lemma ShadowIsNegation(defs: seq<Named>, key: string)
    requires Shadowed(defs, key)
    ensures key != "" && key in AllOptions(defs) && AllOptions(defs)[key].definition.kind.BooleanArg?
  {
    MapsAlwaysRelate(defs);
    hide AllOptions, NamedOptions;
  }

  /** A boolean option in front of the last token. */
  lemma FlagFirst(options: OptionMap, key: string, second: string)
    requires key != "" && '=' !in key && key in options && options[key].definition.kind.BooleanArg?
    ensures Parse(options, [Long(key), second], {})
            == Before([Flag(Long(key), options[key])], Parse(options, [second], {options[key].name}))
  {
    hide IsOperand, Head, KeyOf, InlineValue;
    LongOption(key);
    var tokens := [Long(key), second];
    assert ReadOption(options, tokens, {}) == Reads(Flag(Long(key), options[key]));
    hide ReadOption;
    assert tokens[1..] == [second] && {} + {options[key].name} == {options[key].name};
  }

  /** A value option in front of the last token takes it, whatever it is. */
  lemma GatherSwallows(named: OptionMap, key: string, second: string, lists: Lists)
    requires key != "" && '=' !in key && TakesValue(named, key)
    ensures Gather(named, [Long(key), second], lists) == Push(lists, named[key], second)
  {
    hide IsOperand, Head, KeyOf, InlineValue, Push;
    LongOption(key);
    assert [Long(key), second][2..] == [];
  }

  lemma NoOperands(a: Item, b: Item)
    requires !a.Operand? && !a.Rest? && !b.Operand? && !b.Rest?
    ensures Operands([a] + [b]) == []
  {
    OperandsSnoc([], a);
    OperandsSnoc([a], b);
    assert [] + [a] == [a];
  }

  /** A shadowed repeatable option swallows the delimiter. */
  lemma SwallowsDelimiter(defs: seq<Named>, key: string)
    requires DistinctNames(defs) && Shadowed(defs, key) && NamedOptions(defs)[key].definition.multiple
    ensures !ScansAgree([Long(key), DELIMITER], defs)
  {
    hide AllOptions, NamedOptions, EmptyLists, Positionals, IsOperand, Head, ReadOption, ValuesOf;
    ShadowIsNegation(defs, key);
    EmptyListsFit(defs);
    EmptyListsExactly(defs);
    var all, named := AllOptions(defs), NamedOptions(defs);
    var flag := Flag(Long(key), all[key]);
    FlagFirst(all, key, DELIMITER);
    GatherSwallows(named, key, DELIMITER, EmptyLists(defs));
    assert Parse(all, [DELIMITER], {all[key].name}) == Items([Delimiter]);
    hide Parse, Gather;
    NoOperands(flag, Delimiter);
    assert Validate([Long(key), DELIMITER], defs) == None;
    var name := named[key].name;
    SingleValue(flag, [Delimiter], name);
    ValuesOfOne(flag, name);
    ValuesOfOne(Delimiter, name);
  }

  lemma InlineAlone(options: OptionMap, j: string, seen: set<string>)
    requires Repeatable(options, j)
    ensures var token := Long(j) + "=" + "v";
            Parse(options, [token], seen) == Items([Inline(Head(token), options[j], "v")])
  {
    hide IsOperand, Head, KeyOf, InlineValue;
    LongInline(j);
    var token := Long(j) + "=" + "v";
    assert ReadOption(options, [token], seen) == Reads(Inline(Head(token), options[j], "v"));
    hide ReadOption;
    assert [token][1..] == [];
  }

  /** Any other shadowed value option swallows the value of a repeatable one. */
  lemma SwallowsValue(defs: seq<Named>, key: string, j: string)
    requires DistinctNames(defs) && Shadowed(defs, key) && !NamedOptions(defs)[key].definition.multiple
    requires Repeatable(AllOptions(defs), j)
    ensures !ScansAgree([Long(key), Long(j) + "=" + "v"], defs)
  {
    hide AllOptions, NamedOptions, EmptyLists, Positionals, IsOperand, Head, ReadOption, ValuesOf, Parse, Gather;
    ShadowIsNegation(defs, key);
    EmptyListsFit(defs);
    EmptyListsExactly(defs);
    var all, named := AllOptions(defs), NamedOptions(defs);
    var token := Long(j) + "=" + "v";
    var flag, inline := Flag(Long(key), all[key]), Inline(Head(token), all[j], "v");
    FlagFirst(all, key, token);
    InlineAlone(all, j, {all[key].name});
    GatherSwallows(named, key, token, EmptyLists(defs));
    NoOperands(flag, inline);
    assert Validate([Long(key), token], defs) == None;
    var name := all[j].name;
    SingleValue(flag, [inline], name);
    ValuesOfOne(flag, name);
    ValuesOfOne(inline, name);
  }

  /** For all definitions: the two scans agree on every token list exactly when no
      generated negation shadows a value option in a way that spoils the collection. */
  lemma ScansAgreeExactly(defs: seq<Named>)
    requires DistinctNames(defs)
    ensures (forall tokens :: ScansAgree(tokens, defs)) <==> (forall k :: !Spoils(defs, k))
  {
    hide AllOptions, NamedOptions, ScansAgree, Repeatable;
    if k :| Spoils(defs, k) {
      if NamedOptions(defs)[k].definition.multiple {
        SwallowsDelimiter(defs, k);
      } else {
        var j :| Repeatable(AllOptions(defs), j);
        SwallowsValue(defs, k, j);
      }
    } else {
      forall tokens ensures ScansAgree(tokens, defs) {
        AgreeUnspoilt(tokens, defs);
      }
    }
  }
}

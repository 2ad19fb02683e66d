/** The two scans that run before a command's own tokens are validated: the search for
    the sub-command (apps/cli/src/command-model.ts:568-591) and the rewriting of
    built-in flags given as option values (apps/cli/src/command-model.ts:497-566), over a
    whole tree of commands. */
module CommandRouting {
  import opened CommandTokens

  // ---- subCommandIndex ---------------------------------------------------------------------

  /** How far the scan moves from an option token. */
  function Stride(options: OptionMap, token: string): nat
  {
    var option := Resolve(options, Head(token));
    if InlineValue(token).None? && option.Some? && IsValueArgument(option.value.definition) then 2 else 1
  }

  function SubCommandFrom(options: OptionMap, tokens: seq<string>, from: nat): Option<nat>
    decreases |tokens| - from
  {
    if from >= |tokens| || tokens[from] == DELIMITER then None
    else if IsOperand(tokens[from]) then Some(from)
    else SubCommandFrom(options, tokens, from + Stride(options, tokens[from]))
  }

  method SubCommandIndex(rawArgs: seq<string>, defs: seq<Named>) returns (found: Option<nat>)
    ensures found == SubCommandFrom(AllOptions(defs), rawArgs, 0)
  {
    var options := BuildOptionMap(defs);
    hide AllOptions, Head, InlineValue, Resolve, IsOperand;
    var index := 0;
    while index < |rawArgs|
      invariant 0 <= index
      invariant SubCommandFrom(options, rawArgs, index) == SubCommandFrom(options, rawArgs, 0)
    {
      var token := rawArgs[index];
      if token == DELIMITER {
        return None;
      }
      if IsOperand(token) {
        return Some(index);
      }
      var optionToken, inline := SplitAtEquals(token);
      var option := Resolve(options, optionToken);
      if inline.None? && option.Some? && IsValueArgument(option.value.definition) {
        index := index + 1;
      }
      index := index + 1;
    }
    return None;
  }

  /** How many option items a line starts with. */
  function LeadingOptions(items: seq<Item>): (k: nat)
    ensures k <= |items| && forall j :: 0 <= j < k ==> IsOptionItem(items[j])
    ensures k < |items| ==> !IsOptionItem(items[k])
  {
    if items != [] && IsOptionItem(items[0]) then 1 + LeadingOptions(items[1..]) else 0
  }

  lemma StrideIsItem(options: OptionMap, tokens: seq<string>, seen: set<string>)
    requires tokens != [] && ReadOption(options, tokens, seen).Reads?
    ensures Stride(options, tokens[0]) == |RenderItem(ReadOption(options, tokens, seen).item)|
  {
    hide Head, Resolve;
  }

  /** Where the first operand of a line stands that only options precede. */
  function FirstOperandAt(items: seq<Item>, from: nat): Option<nat>
  {
    var k := LeadingOptions(items);
    if k < |items| && items[k].Operand? then Some(from + |Render(items[..k])|) else None
  }

  lemma FirstOperandCons(item: Item, rest: seq<Item>, from: nat)
    ensures IsOptionItem(item) ==> FirstOperandAt([item] + rest, from) == FirstOperandAt(rest, from + |RenderItem(item)|)
    ensures !IsOptionItem(item) ==> FirstOperandAt([item] + rest, from) == if item.Operand? then Some(from) else None
  {
    var items := [item] + rest;
    assert items[1..] == rest;
    if IsOptionItem(item) {
      var k := LeadingOptions(rest);
      ConsOf(item, rest[..k]);
      assert items[..k + 1] == [item] + rest[..k];
    } else {
      assert items[..0] == [];
    }
  }

  /** The search for the sub-command takes an accepted line apart as its validation
      does: it stops where the first operand stands, when only options precede it, and
      finds nothing when the options run into a delimiter or the end. */
  lemma {:induction false} SubCommandIsFirstOperand(
    options: OptionMap, tokens: seq<string>, from: nat, seen: set<string>)
    requires from <= |tokens| && Parse(options, tokens[from..], seen).Items?
    ensures SubCommandFrom(options, tokens, from) == FirstOperandAt(Parse(options, tokens[from..], seen).items, from)
    decreases |tokens| - from
  {
    var rest := tokens[from..];
    if from < |tokens| {
      assert rest[0] == tokens[from] && rest[1..] == tokens[from + 1..];
      hide IsOperand, Head, FirstOperandAt, ReadOption, Stride, RenderItem;
      if rest[0] == DELIMITER {
        FirstOperandCons(Delimiter, RestOf(rest[1..]), from);
      } else if IsOperand(rest[0]) {
        FirstOperandCons(Operand(rest[0]), Parse(options, rest[1..], seen).items, from);
      } else {
        StrideIsItem(options, rest, seen);
        var item := ReadOption(options, rest, seen).item;
        var n := |RenderItem(item)|;
        assert rest[n..] == tokens[from + n..];
        SubCommandIsFirstOperand(options, tokens, from + n, seen + {item.option.name});
        FirstOperandCons(item, Parse(options, rest[n..], seen + {item.option.name}).items, from);
      }
    }
  }

  // ---- The command tree --------------------------------------------------------------------------

  datatype Command = Command(defs: seq<Named>, subCommands: Option<seq<Child>>)

  datatype Child = Child(name: string, aliases: seq<string>, command: Command)

  function FindByName(children: seq<Child>, name: string): Option<Command>
  {
    if children == [] then None
    else if children[0].name == name then Some(children[0].command)
    else FindByName(children[1..], name)
  }

  function FindByAlias(children: seq<Child>, name: string): Option<Command>
  {
    if children == [] then None
    else if name in children[0].aliases then Some(children[0].command)
    else FindByAlias(children[1..], name)
  }

  /** A name wins over an alias. */
  function FindSubCommand(command: Command, name: string): Option<Command>
  {
    if command.subCommands.None? then None
    else
      var found := FindByName(command.subCommands.value, name);
      if found.Some? then found else FindByAlias(command.subCommands.value, name)
  }

  /** Child i is the first that goes by this name. */
  predicate FirstNamed(children: seq<Child>, name: string, i: nat)
  {
    i < |children| && children[i].name == name && forall j :: 0 <= j < i ==> children[j].name != name
  }

  /** No child goes by this name, and child i is the first that has it for an alias. */
  predicate FirstAliased(children: seq<Child>, name: string, i: nat)
  {
    && i < |children| && name in children[i].aliases && (forall j :: 0 <= j < i ==> name !in children[j].aliases)
    && forall j :: 0 <= j < |children| ==> children[j].name != name
  }

  lemma {:induction false} ByNameExactly(children: seq<Child>, name: string, i: nat)
    ensures FirstNamed(children, name, i) ==> FindByName(children, name) == Some(children[i].command)
    ensures FindByName(children, name) == None <==> forall j :: 0 <= j < |children| ==> children[j].name != name
    decreases |children|
  {
    if children != [] {
      ByNameExactly(children[1..], name, if i > 0 then i - 1 else 0);
    }
  }

  lemma {:induction false} ByAliasExactly(children: seq<Child>, name: string, i: nat)
    requires i < |children| && name in children[i].aliases && forall j :: 0 <= j < i ==> name !in children[j].aliases
    ensures FindByAlias(children, name) == Some(children[i].command)
    decreases |children|
  {
    if i > 0 {
      ByAliasExactly(children[1..], name, i - 1);
    }
  }

  lemma {:induction false} NoAlias(children: seq<Child>, name: string)
    requires forall j :: 0 <= j < |children| ==> name !in children[j].aliases
    ensures FindByAlias(children, name) == None
    decreases |children|
  {
    if children != [] {
      NoAlias(children[1..], name);
    }
  }

  /** A sub-command is found by its name, and by an alias only when no child has the name;
      the first such child counts. */
  lemma FindSubCommandExactly(command: Command, name: string, i: nat)
    ensures command.subCommands.None? ==> FindSubCommand(command, name) == None
    ensures command.subCommands.Some? && (FirstNamed(command.subCommands.value, name, i) || FirstAliased(command.subCommands.value, name, i))
            ==> FindSubCommand(command, name) == Some(command.subCommands.value[i].command)
    ensures command.subCommands.Some? && (forall j :: 0 <= j < |command.subCommands.value| ==>
              command.subCommands.value[j].name != name && name !in command.subCommands.value[j].aliases)
            ==> FindSubCommand(command, name) == None
  {
    if command.subCommands.Some? {
      var children := command.subCommands.value;
      ByNameExactly(children, name, i);
      if FirstAliased(children, name, i) {
        ByAliasExactly(children, name, i);
      }
      if forall j :: 0 <= j < |children| ==> name !in children[j].aliases {
        NoAlias(children, name);
      }
    }
  }

  function Options(command: Command): OptionMap
  {
    AllOptions(command.defs)
  }

  /** The command whose options hold after an operand. */
  function Enter(command: Command, operand: string): Command
  {
    var child := FindSubCommand(command, operand);
    if child.Some? then child.value else command
  }

  // ---- normalizeBuiltinFlagValues --------------------------------------------------------------

  predicate IsBuiltinFlag(token: string)
  {
    token == "--help" || token == "-h" || token == "--version" || token == "-v"
  }

  predicate IsValueToken(options: OptionMap, token: string)
  {
    var option := Resolve(options, token);
    option.Some? && IsValueArgument(option.value.definition)
  }

  predicate StartsWithDash(token: string)
  {
    token != "" && token[0] == '-'
  }

  /** The rewriting; it enters sub-commands, and does not know the delimiter. */
  function Normalize(command: Command, tokens: seq<string>): (r: seq<string>)
    ensures |r| <= |tokens|
    decreases |tokens|
  {
    if tokens == [] then []
    else
      var takesValue := IsValueToken(Options(command), tokens[0]);
      if takesValue && |tokens| >= 2 && IsBuiltinFlag(tokens[1]) then
        [tokens[0] + "=" + tokens[1]] + Normalize(command, tokens[2..])
      else if !StartsWithDash(tokens[0]) then
        [tokens[0]] + Normalize(Enter(command, tokens[0]), tokens[1..])
      else if takesValue && '=' !in tokens[0] && |tokens| >= 2 then
        [tokens[0], tokens[1]] + Normalize(command, tokens[2..])
      else [tokens[0]] + Normalize(command, tokens[1..])
  }

  method NormalizeLoop(root: Command, rawArgs: seq<string>) returns (normalized: seq<string>)
    ensures normalized == Normalize(root, rawArgs)
  {
    hide Resolve, IsBuiltinFlag, FindSubCommand, AllOptions;
    var command := root;
    var options := BuildOptionMap(command.defs);
    normalized := [];
    var index := 0;
    assert rawArgs[0..] == rawArgs;
    while index < |rawArgs|
      invariant 0 <= index <= |rawArgs| && options == Options(command)
      invariant normalized + Normalize(command, rawArgs[index..]) == Normalize(root, rawArgs)
    {
      ghost var tokens, before, whole := rawArgs[index..], normalized, Normalize(command, rawArgs[index..]);
      assert tokens[1..] == rawArgs[index + 1..] && (|tokens| >= 2 ==> tokens[2..] == rawArgs[index + 2..]);
      var token := rawArgs[index];
      var option := Resolve(options, token);
      var takesValue := option.Some? && IsValueArgument(option.value.definition);
      if takesValue && index + 1 < |rawArgs| && IsBuiltinFlag(rawArgs[index + 1]) {
        normalized := normalized + [token + "=" + rawArgs[index + 1]];
        index := index + 1;
      } else {
        normalized := normalized + [token];
        if StartsWithDash(token) {
          if takesValue && '=' !in token && index + 1 < |rawArgs| {
            normalized := normalized + [rawArgs[index + 1]];
            index := index + 1;
          }
        } else {
          var child := FindSubCommand(command, token);
          if child.Some? {
            command := child.value;
            options := BuildOptionMap(command.defs);
          }
        }
      }
      index := index + 1;
      Appended(before, normalized, whole, Normalize(command, rawArgs[index..]));
    }
    assert rawArgs[index..] == [];
  }

  lemma Appended(before: seq<string>, after: seq<string>, whole: seq<string>, rest: seq<string>)
    requires before <= after && whole == after[|before|..] + rest
    ensures after + rest == before + whole
  {}

  /** The scan of the rewriting reaches a value option in front of a built-in flag. */
  predicate TakesBuiltin(command: Command, tokens: seq<string>)
    decreases |tokens|
  {
    if |tokens| < 2 then false
    else
      var takesValue := IsValueToken(Options(command), tokens[0]);
      if takesValue && IsBuiltinFlag(tokens[1]) then true
      else if !StartsWithDash(tokens[0]) then TakesBuiltin(Enter(command, tokens[0]), tokens[1..])
      else if takesValue && '=' !in tokens[0] then TakesBuiltin(command, tokens[2..])
      else TakesBuiltin(command, tokens[1..])
  }

  /** The rewriting changes a line exactly when its scan finds such a place. */
  lemma {:induction false} NormalizeChangesExactly(command: Command, tokens: seq<string>)
    ensures Normalize(command, tokens) == tokens <==> !TakesBuiltin(command, tokens)
    ensures TakesBuiltin(command, tokens) ==> |Normalize(command, tokens)| < |tokens|
    decreases |tokens|
  {
    hide IsValueToken, IsBuiltinFlag, StartsWithDash, Enter, Options;
    if tokens != [] {
      assert tokens == [tokens[0]] + tokens[1..];
      NormalizeChangesExactly(command, tokens[1..]);
      NormalizeChangesExactly(Enter(command, tokens[0]), tokens[1..]);
      if |tokens| >= 2 {
        assert tokens == [tokens[0], tokens[1]] + tokens[2..];
        NormalizeChangesExactly(command, tokens[2..]);
      } else {
        assert tokens[1..] == [];
      }
    }
  }

  // ---- What the rewriting does to a line -----------------------------------------------------------

  /** No option that takes a value is named by the empty string or by a string with an
      `=` in it. */
  predicate PlainKeys(options: OptionMap)
  {
    forall k :: k in options && IsValueArgument(options[k].definition) ==> k != "" && '=' !in k
  }

  function Rewritten(item: Item): Item
  {
    if item.Separate? && IsBuiltinFlag(item.value) then Inline(item.token, item.option, item.value) else item
  }

  /** The items the rewriting leaves: built-in flags given as values become inline, and
      what follows a delimiter is rewritten blindly. */
  function RewrittenItems(command: Command, items: seq<Item>): seq<Item>
    decreases |items|
  {
    if items == [] then []
    else if items[0].Delimiter? then [Delimiter] + RestOf(Normalize(command, Render(items[1..])))
    else [Rewritten(items[0])] + RewrittenItems(command, items[1..])
  }

  /** The operands before a delimiter name no sub-command. */
  ghost predicate StaysIn(command: Command, items: seq<Item>)
  {
    forall i :: 0 <= i < |items| && items[i].Operand? ==> FindSubCommand(command, items[i].value) == None
  }

  lemma OperandIsNoValueToken(options: OptionMap, token: string)
    requires IsOperand(token)
    ensures !IsValueToken(options, token)
  {}

  lemma EqualsIsNoValueToken(options: OptionMap, token: string)
    requires PlainKeys(options) && ('=' in token || token == DELIMITER)
    ensures !IsValueToken(options, token)
  {
    var key := KeyOf(token);
    if key.Some? && '=' in token {
      assert token == token[..|token| - |key.value|] + key.value;
      assert '=' in key.value;
    }
  }

  /** One item other than the delimiter: its tokens are rewritten on their own. */
  lemma NormalizeItem(command: Command, item: Item, rest: seq<string>)
    requires PlainKeys(Options(command))
    requires WellFormedOption(Options(command), item)
             || (item.Operand? && IsOperand(item.value) && FindSubCommand(command, item.value) == None)
    ensures Normalize(command, RenderItem(item) + rest) == RenderItem(Rewritten(item)) + Normalize(command, rest)
  {
    var options := Options(command);
    hide Resolve, IsBuiltinFlag, FindSubCommand, Options;
    var tokens := RenderItem(item) + rest;
    match item
    case Operand(value) =>
      OperandIsNoValueToken(options, value);
      assert tokens[0] == value && tokens[1..] == rest;
    case Flag(token, option) =>
      HeadPlain(token);
      if '=' in token {
        EqualsIsNoValueToken(options, token);
      }
      assert tokens[0] == token && tokens[1..] == rest && StartsWithDash(token);
    case Inline(head, option, value) =>
      EqualsIsNoValueToken(options, head + "=" + value);
      assert tokens[0] == head + "=" + value && tokens[1..] == rest && StartsWithDash(tokens[0]);
    case Separate(token, option, value) =>
      assert tokens[0] == token && tokens[1] == value && tokens[2..] == rest && StartsWithDash(token);
  }

  lemma NormalizeDelimiter(command: Command, rest: seq<string>)
    requires PlainKeys(Options(command))
    ensures Normalize(command, [DELIMITER] + rest) == [DELIMITER] + Normalize(command, rest)
  {
    EqualsIsNoValueToken(Options(command), DELIMITER);
    hide IsValueToken, Options;
    assert ([DELIMITER] + rest)[1..] == rest;
  }

  lemma {:induction false} NormalizeRenders(command: Command, items: seq<Item>, seen: set<string>)
    requires PlainKeys(Options(command)) && WellFormed(Options(command), items, seen) && StaysIn(command, items)
    ensures Normalize(command, Render(items)) == Render(RewrittenItems(command, items))
    decreases |items|
  {
    hide Options, FindSubCommand, WellFormedOption, IsOperand, PlainKeys;
    if items != [] {
      var item, rest := items[0], items[1..];
      assert items == [item] + rest;
      ConsOf(item, rest);
      if item.Delimiter? {
        var tail := Normalize(command, Render(rest));
        NormalizeDelimiter(command, Render(rest));
        ConsOf(Delimiter, RestOf(tail));
        RenderRest(tail);
        hide Normalize;
      } else {
        assert StaysIn(command, rest);
        NormalizeRenders(command, rest, if item.Operand? then seen else seen + {item.option.name});
        NormalizeItem(command, item, Render(rest));
        ConsOf(Rewritten(item), RewrittenItems(command, rest));
        hide Normalize, Rewritten;
      }
    }
  }

  lemma {:induction false} RewrittenWellFormed(command: Command, options: OptionMap, items: seq<Item>, seen: set<string>)
    requires WellFormed(options, items, seen)
    ensures WellFormed(options, RewrittenItems(command, items), seen)
    decreases |items|
  {
    hide Resolve, IsBuiltinFlag, Normalize;
    if items != [] && !items[0].Delimiter? {
      var item := Rewritten(items[0]);
      RewrittenWellFormed(command, options, items[1..], if item.Operand? then seen else seen + {item.option.name});
      var r := RewrittenItems(command, items);
      assert r[0] == item && r[1..] == RewrittenItems(command, items[1..]);
    }
  }

  /** What follows the delimiter. */
  function AfterDelimiter(items: seq<Item>): seq<string>
    decreases |items|
  {
    if items == [] then []
    else if items[0].Delimiter? then Render(items[1..])
    else AfterDelimiter(items[1..])
  }

  lemma {:induction false} OperandsCons(item: Item, rest: seq<Item>)
    ensures Operands([item] + rest) == (if item.Operand? || item.Rest? then [item.value] else []) + Operands(rest)
    decreases |rest|
  {
    if rest == [] {
      assert [item] + rest == [] + [item];
      OperandsSnoc([], item);
    } else {
      var front, last := rest[..|rest| - 1], rest[|rest| - 1];
      assert [item] + rest == [item] + front + [last];
      OperandsCons(item, front);
      OperandsSnoc([item] + front, last);
    }
  }

  lemma {:induction false} OperandsOfRest(tokens: seq<string>)
    ensures Operands(RestOf(tokens)) == tokens
    decreases |tokens|
  {
    hide RestOf;
    if tokens == [] {
      assert RestOf(tokens) == [];
    } else {
      assert RestOf(tokens) == [Rest(tokens[0])] + RestOf(tokens[1..]);
      OperandsOfRest(tokens[1..]);
      OperandsCons(Rest(tokens[0]), RestOf(tokens[1..]));
      hide Operands;
      assert tokens == [tokens[0]] + tokens[1..];
    }
  }

  lemma Cancel(a: seq<string>, x: seq<string>, y: seq<string>)
    ensures a + x == a + y <==> x == y
  {
    if a + x == a + y {
      assert x == (a + x)[|a|..] == (a + y)[|a|..] == y;
    }
  }

  /** The rewriting keeps every option value, and keeps the operands exactly when its scan
      finds nothing to rewrite after the delimiter. */
  lemma {:induction false} RewritingKeeps(
    command: Command, options: OptionMap, items: seq<Item>, seen: set<string>, name: string)
    requires WellFormed(options, items, seen)
    ensures ValuesOf(RewrittenItems(command, items), name) == ValuesOf(items, name)
    ensures Operands(RewrittenItems(command, items)) == Operands(items) <==>
            !TakesBuiltin(command, AfterDelimiter(items))
    decreases |items|
  {
    hide Normalize, WellFormedOption, Operands, Render, IsOperand;
    if items != [] {
      var item, rest := items[0], items[1..];
      assert items == [item] + rest;
      OperandsCons(item, rest);
      SingleValue(item, rest, name);
      if item.Delimiter? {
        hide TakesBuiltin;
        var tail := Render(rest);
        var after := Normalize(command, tail);
        NormalizeChangesExactly(command, tail);
        RestRenders(rest);
        OperandsCons(Delimiter, RestOf(after));
        OperandsOfRest(after);
        OperandsOfRest(tail);
        SingleValue(Delimiter, RestOf(after), name);
        RestHasNoValues(after, name);
        RestHasNoValues(tail, name);
        ValuesOfOne(Delimiter, name);
        assert RestOf(tail) == rest;
        assert [] + tail == tail && [] + after == after;
        assert RewrittenItems(command, items) == [Delimiter] + RestOf(after);
      } else {
        hide TakesBuiltin;
        RewritingKeeps(command, options, rest, if item.Operand? then seen else seen + {item.option.name}, name);
        OperandsCons(Rewritten(item), RewrittenItems(command, rest));
        SingleValue(Rewritten(item), RewrittenItems(command, rest), name);
        ValuesOfOne(item, name);
        ValuesOfOne(Rewritten(item), name);
        Cancel(if item.Operand? then [item.value] else [], Operands(RewrittenItems(command, rest)), Operands(rest));
        hide ValuesOf, IsBuiltinFlag;
      }
    }
  }

  // ---- Whole invocations ---------------------------------------------------------------------------

  /** One command's own part of an invocation. */
  datatype Line = Line(command: Command, items: seq<Item>)

  /** Where the tokens leave a command that has sub-commands. */
  function Index(command: Command, tokens: seq<string>): Option<nat>
  {
    if command.subCommands.None? then None else SubCommandFrom(Options(command), tokens, 0)
  }

  lemma StrideGrows(options: OptionMap, token: string)
    ensures 1 <= Stride(options, token) <= 2
  {}

  lemma {:induction false} SubCommandWithin(options: OptionMap, tokens: seq<string>, from: nat)
    ensures var n := SubCommandFrom(options, tokens, from);
            n.Some? ==> from <= n.value < |tokens| && IsOperand(tokens[n.value]) && tokens[n.value] != DELIMITER
    decreases |tokens| - from
  {
    hide IsOperand, Stride;
    if from < |tokens| && tokens[from] != DELIMITER && !IsOperand(tokens[from]) {
      StrideGrows(options, tokens[from]);
      SubCommandWithin(options, tokens, from + Stride(options, tokens[from]));
    }
  }

  /** How an invocation divides among the commands it enters, as
      `validateCommandInvocation` walks it; none when a part does not parse or a
      sub-command is unknown. */
  function Route(command: Command, tokens: seq<string>): Option<seq<Line>>
    decreases |tokens|
  {
    var options := Options(command);
    match Index(command, tokens)
    case None =>
      (match Parse(options, tokens, {})
       case Failed(_) => None
       case Items(items) => Some([Line(command, items)]))
    case Some(n) =>
      SubCommandWithin(options, tokens, 0);
      match Parse(options, tokens[..n], {})
      case Failed(_) => None
      case Items(items) =>
        var child := FindSubCommand(command, tokens[n]);
        if child.None? then None
        else
          var rest := Route(child.value, tokens[n + 1..]);
          if rest.None? then None else Some([Line(command, items)] + rest.value)
  }

  /** The value options have plain names, and no sub-command is called "-". */
  ghost predicate PlainCommand(command: Command)
  {
    && PlainKeys(Options(command))
    && FindSubCommand(command, "-") == None
  }

  /** Every command the tokens can enter is plain. */
  ghost predicate PlainTree(command: Command, depth: nat)
    decreases depth
  {
    && PlainCommand(command)
    && (depth > 0 ==> forall name :: FindSubCommand(command, name).Some? ==>
                        PlainTree(FindSubCommand(command, name).value, depth - 1))
  }

  ghost predicate OnlyOptions(items: seq<Item>)
  {
    forall i :: 0 <= i < |items| ==> IsOptionItem(items[i])
  }

  /** Before the sub-command stand only options. */
  lemma {:induction false} BeforeSubCommand(options: OptionMap, tokens: seq<string>, from: nat, n: nat, seen: set<string>)
    requires from <= n <= |tokens| && SubCommandFrom(options, tokens, from) == Some(n)
    requires Parse(options, tokens[from..n], seen).Items?
    ensures OnlyOptions(Parse(options, tokens[from..n], seen).items)
    decreases n - from
  {
    if from < n {
      hide IsOperand, ReadOption, Stride, RenderItem;
      var part := tokens[from..n];
      assert part[0] == tokens[from];
      assert tokens[from] != DELIMITER && !IsOperand(tokens[from]);
      StrideIsItem(options, part, seen);
      StrideGrows(options, tokens[from]);
      var item := ReadOption(options, part, seen).item;
      var k := |RenderItem(item)|;
      SubCommandWithin(options, tokens, from + k);
      assert part[k..] == tokens[from + k..n];
      BeforeSubCommand(options, tokens, from + k, n, seen + {item.option.name});
      hide SubCommandFrom;
      assert OnlyOptions([item] + Parse(options, part[k..], seen + {item.option.name}).items);
    }
  }

  lemma Regroup(a: seq<string>, b: seq<string>, c: seq<string>)
    ensures (a + b) + c == a + (b + c)
  {}

  /** Behind well-formed options an operand is found where they end. */
  lemma {:induction false} SubCommandBehind(
    options: OptionMap, front: seq<string>, items: seq<Item>, tail: seq<string>, seen: set<string>)
    requires WellFormed(options, items, seen) && OnlyOptions(items)
    requires tail != [] && IsOperand(tail[0]) && tail[0] != DELIMITER
    ensures SubCommandFrom(options, front + (Render(items) + tail), |front|) == Some(|front| + |Render(items)|)
    decreases |items|
  {
    hide IsOperand, Stride, RenderItem;
    var tokens := front + (Render(items) + tail);
    if items == [] {
      assert tokens[|front|] == tail[0];
    } else {
      var item, rest := items[0], items[1..];
      assert items == [item] + rest;
      ConsOf(item, rest);
      WellFormedReads(options, item, Render(rest) + tail, seen);
      var own := RenderItem(item) + (Render(rest) + tail);
      StrideIsItem(options, own, seen);
      hide WellFormedOption, ReadOption, Render;
      Regroup(RenderItem(item), Render(rest), tail);
      Regroup(front, RenderItem(item), Render(rest) + tail);
      assert tokens[|front|] == own[0];
      SubCommandBehind(options, front + RenderItem(item), rest, tail, seen + {item.option.name});
    }
  }

  /** A line that stops at no operand has none before its delimiter. */
  lemma {:induction false} NoOperandItems(options: OptionMap, items: seq<Item>, seen: set<string>)
    requires WellFormed(options, items, seen) && FirstOperandAt(items, 0) == None
    ensures forall i :: 0 <= i < |items| ==> !items[i].Operand?
    decreases |items|
  {
    hide WellFormedOption;
    if items != [] && IsOptionItem(items[0]) {
      var rest := items[1..];
      assert items == [items[0]] + rest;
      FirstOperandCons(items[0], rest, 0);
      NoOperandItems(options, rest, seen + {items[0].option.name});
    }
  }

  lemma {:induction false} RewrittenHasNoOperands(command: Command, items: seq<Item>)
    requires forall i :: 0 <= i < |items| ==> !items[i].Operand?
    ensures forall i :: 0 <= i < |RewrittenItems(command, items)| ==> !RewrittenItems(command, items)[i].Operand?
    decreases |items|
  {
    if items != [] && !items[0].Delimiter? {
      RewrittenHasNoOperands(command, items[1..]);
    }
  }

  lemma {:induction false} RewrittenOptions(command: Command, items: seq<Item>)
    requires OnlyOptions(items)
    ensures OnlyOptions(RewrittenItems(command, items)) && AfterDelimiter(items) == []
    decreases |items|
  {
    if items != [] {
      RewrittenOptions(command, items[1..]);
    }
  }

  /** The same command with the same values, and the same operands exactly when nothing
      after the delimiter looks like an option in front of a built-in flag. */
  ghost predicate KeptLine(before: Line, after: Line)
  {
    && after.command == before.command
    && (forall n :: ValuesOf(after.items, n) == ValuesOf(before.items, n))
    && (Operands(after.items) == Operands(before.items) <==> !TakesBuiltin(before.command, AfterDelimiter(before.items)))
  }

  lemma LineIsKept(command: Command, items: seq<Item>)
    requires WellFormed(Options(command), items, {})
    ensures KeptLine(Line(command, items), Line(command, RewrittenItems(command, items)))
  {
    hide WellFormed, RewrittenItems, ValuesOf, Operands, TakesBuiltin, AfterDelimiter, Options;
    forall n ensures ValuesOf(RewrittenItems(command, items), n) == ValuesOf(items, n) {
      RewritingKeeps(command, Options(command), items, {}, n);
    }
    RewritingKeeps(command, Options(command), items, {}, "");
  }

  lemma NoOperandStops(items: seq<Item>)
    requires forall i :: 0 <= i < |items| ==> !items[i].Operand?
    ensures FirstOperandAt(items, 0) == None
  {}

  /** A command's last part: all its tokens. */
  lemma LastLineKept(command: Command, tokens: seq<string>)
    requires PlainCommand(command) && Parse(Options(command), tokens, {}).Items?
    requires command.subCommands.None? || SubCommandFrom(Options(command), tokens, 0) == None
    ensures var items := Parse(Options(command), tokens, {}).items; var after := Normalize(command, tokens);
            && Parse(Options(command), after, {}) == Items(RewrittenItems(command, items))
            && (command.subCommands.Some? ==> SubCommandFrom(Options(command), after, 0) == None)
            && WellFormed(Options(command), items, {})
  {
    var options := Options(command);
    hide Options, Parse, WellFormed, Normalize, RewrittenItems, SubCommandFrom, PlainKeys, FirstOperandAt;
    ParseIsWellFormed(options, tokens, {});
    var items := Parse(options, tokens, {}).items;
    assert tokens[0..] == tokens;
    if command.subCommands.Some? {
      SubCommandIsFirstOperand(options, tokens, 0, {});
      NoOperandItems(options, items, {});
      RewrittenHasNoOperands(command, items);
    }
    NormalizeRenders(command, items, {});
    RewrittenWellFormed(command, options, items, {});
    WellFormedParses(options, RewrittenItems(command, items), {});
    if command.subCommands.Some? {
      var after := Normalize(command, tokens);
      assert after[0..] == after;
      SubCommandIsFirstOperand(options, after, 0, {});
      NoOperandStops(RewrittenItems(command, items));
    }
  }

  lemma {:induction false} NormalizeFront(command: Command, items: seq<Item>, tail: seq<string>, seen: set<string>)
    requires PlainKeys(Options(command)) && WellFormed(Options(command), items, seen) && OnlyOptions(items)
    ensures Normalize(command, Render(items) + tail) == Render(RewrittenItems(command, items)) + Normalize(command, tail)
    decreases |items|
  {
    hide Options, WellFormedOption, PlainKeys, Normalize;
    if items == [] {
      assert Render(items) + tail == tail && RewrittenItems(command, items) == [];
    } else {
      var item, rest := items[0], items[1..];
      assert items == [item] + rest;
      ConsOf(item, rest);
      ConsOf(Rewritten(item), RewrittenItems(command, rest));
      assert RewrittenItems(command, items) == [Rewritten(item)] + RewrittenItems(command, rest);
      NormalizeFront(command, rest, tail, seen + {item.option.name});
      NormalizeItem(command, item, Render(rest) + tail);
      hide Render, Rewritten, WellFormed, RewrittenItems, RenderItem;
      Regroup(RenderItem(item), Render(rest), tail);
      Regroup(RenderItem(Rewritten(item)), Render(RewrittenItems(command, rest)), Normalize(command, tail));
    }
  }

  lemma EntersChild(command: Command, tokens: seq<string>)
    requires PlainCommand(command) && tokens != [] && IsOperand(tokens[0]) && FindSubCommand(command, tokens[0]).Some?
    ensures Normalize(command, tokens)
            == [tokens[0]] + Normalize(FindSubCommand(command, tokens[0]).value, tokens[1..])
  {
    OperandIsNoValueToken(Options(command), tokens[0]);
    hide IsOperand, IsValueToken, Options, FindSubCommand, PlainKeys;
  }

  /** A command's part in front of a sub-command. */
  lemma FrontLineKept(command: Command, tokens: seq<string>, n: nat)
    requires PlainCommand(command) && command.subCommands.Some?
    requires SubCommandFrom(Options(command), tokens, 0) == Some(n) && n < |tokens|
    requires Parse(Options(command), tokens[..n], {}).Items? && FindSubCommand(command, tokens[n]).Some?
    ensures var items := Parse(Options(command), tokens[..n], {}).items;
            var front := Render(RewrittenItems(command, items));
            var after := Normalize(command, tokens);
            && after == front + ([tokens[n]] + Normalize(FindSubCommand(command, tokens[n]).value, tokens[n + 1..]))
            && SubCommandFrom(Options(command), after, 0) == Some(|front|)
            && Parse(Options(command), front, {}) == Items(RewrittenItems(command, items))
            && WellFormed(Options(command), items, {})
  {
    var options := Options(command);
    hide Options, Parse, Normalize, RewrittenItems, SubCommandFrom, PlainKeys, FindSubCommand;
    ParseIsWellFormed(options, tokens[..n], {});
    var items := Parse(options, tokens[..n], {}).items;
    assert tokens[0..n] == tokens[..n];
    SubCommandWithin(options, tokens, 0);
    BeforeSubCommand(options, tokens, 0, n, {});
    RewrittenOptions(command, items);
    RewrittenWellFormed(command, options, items, {});
    WellFormedParses(options, RewrittenItems(command, items), {});
    assert tokens == Render(items) + tokens[n..];
    NormalizeFront(command, items, tokens[n..], {});
    EntersChild(command, tokens[n..]);
    assert tokens[n..][1..] == tokens[n + 1..];
    var tail := [tokens[n]] + Normalize(FindSubCommand(command, tokens[n]).value, tokens[n + 1..]);
    SubCommandBehind(options, [], RewrittenItems(command, items), tail, {});
    var front := Render(RewrittenItems(command, items));
    assert [] + (front + tail) == front + tail;
  }

  lemma RouteLast(command: Command, tokens: seq<string>)
    requires Index(command, tokens) == None
    ensures var r := Parse(Options(command), tokens, {});
            Route(command, tokens) == if r.Items? then Some([Line(command, r.items)]) else None
  {
    hide Parse, SubCommandFrom, Options;
  }

  lemma RouteInto(command: Command, tokens: seq<string>, n: nat)
    requires Index(command, tokens) == Some(n) && n < |tokens|
    ensures var r := Parse(Options(command), tokens[..n], {}); var child := FindSubCommand(command, tokens[n]);
            Route(command, tokens) ==
              if r.Failed? || child.None? then None
              else
                var rest := Route(child.value, tokens[n + 1..]);
                if rest.None? then None else Some([Line(command, r.items)] + rest.value)
  {
    hide Parse, SubCommandFrom, Options, FindSubCommand;
  }

  lemma Parts(front: seq<string>, token: string, rest: seq<string>)
    ensures var all := front + ([token] + rest);
            |front| < |all| && all[..|front|] == front && all[|front|] == token && all[|front| + 1..] == rest
  {}

  lemma {:induction false} PlainTreeMonotone(command: Command, depth: nat, less: nat)
    requires PlainTree(command, depth) && less <= depth
    ensures PlainTree(command, less)
    decreases depth
  {
    if less > 0 {
      forall name | FindSubCommand(command, name).Some?
        ensures PlainTree(FindSubCommand(command, name).value, less - 1)
      {
        PlainTreeMonotone(FindSubCommand(command, name).value, depth - 1, less - 1);
      }
    }
  }

  /** An invocation that divides among its commands still does so after the rewriting:
      it enters the same commands, gives every option of each the same values, and keeps
      the operands of each exactly when the rewriting's scan of what follows the
      delimiter reaches no value option in front of a built-in flag. */
  lemma {:induction false} NormalizeKeepsMeaningExactly(command: Command, tokens: seq<string>)
    requires PlainTree(command, |tokens|) && Route(command, tokens).Some?
    ensures var before, after := Route(command, tokens).value, Route(command, Normalize(command, tokens));
            && after.Some? && |after.value| == |before|
            && forall i :: 0 <= i < |before| ==> KeptLine(before[i], after.value[i])
    decreases |tokens|
  {
    hide Options, Parse, KeptLine, Normalize, RewrittenItems, PlainCommand, FindSubCommand, SubCommandFrom, WellFormed, Route;
    var options, index := Options(command), Index(command, tokens);
    if index.None? {
      RouteLast(command, tokens);
      LastLineKept(command, tokens);
      LineIsKept(command, Parse(options, tokens, {}).items);
      RouteLast(command, Normalize(command, tokens));
    } else {
      var n := index.value;
      SubCommandWithin(options, tokens, 0);
      RouteInto(command, tokens, n);
      var items, rest := Parse(options, tokens[..n], {}).items, tokens[n + 1..];
      var child := FindSubCommand(command, tokens[n]).value;
      FrontLineKept(command, tokens, n);
      LineIsKept(command, items);
      PlainTreeMonotone(child, |tokens| - 1, |rest|);
      NormalizeKeepsMeaningExactly(child, rest);
      var front := Render(RewrittenItems(command, items));
      hide PlainTree, Render, RenderItem, IsOperand;
      Parts(front, tokens[n], Normalize(child, rest));
      RouteInto(command, Normalize(command, tokens), |front|);
    }
  }

  /** It does touch it: two operands after a delimiter, spelt like a value option and
      a built-in flag, become one. */
  lemma DelimiterIsNotRespected(command: Command, key: string)
    requires PlainKeys(Options(command)) && TakesValue(Options(command), key)
    ensures TakesBuiltin(command, [Long(key), "--help"])
    ensures Normalize(command, [DELIMITER] + [Long(key), "--help"]) == [DELIMITER] + [Long(key) + "=" + "--help"]
  {
    var rest := [Long(key), "--help"];
    NormalizeDelimiter(command, rest);
    LongOption(key);
    assert IsValueToken(Options(command), Long(key)) && IsBuiltinFlag(rest[1]);
    hide IsValueToken, IsBuiltinFlag, Options;
    assert rest[2..] == [];
    assert Normalize(command, []) == [];
  }

  /** A value option whose name is empty takes the delimiter itself for its token. */
  lemma EmptyNameTakesTheDelimiter(command: Command)
    requires TakesValue(Options(command), "")
    ensures Normalize(command, [DELIMITER] + ["--help"]) == [DELIMITER + "=" + "--help"]
    ensures !TakesBuiltin(command, ["--help"])
  {
    assert DELIMITER[2..] == "" && KeyOf(DELIMITER) == Some("");
    assert IsValueToken(Options(command), DELIMITER);
    var tokens := [DELIMITER] + ["--help"];
    assert IsBuiltinFlag(tokens[1]) && tokens[2..] == [];
    hide IsValueToken, IsBuiltinFlag, Options;
    assert Normalize(command, []) == [];
  }
}

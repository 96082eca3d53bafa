/**
 The world-map command interpreter: one line of player input is lower-cased,
 split into tokens and dispatched to exactly one outcome, chosen from an
 ordered decision table:

   1. `quit` (no action at all),
   2. the item verbs `drop`, `equip`, `unequip`, `use` (two or more tokens),
   3. the built-in keywords (the whole input must equal the keyword),
   4. the first visible tile event whose command equals the first token,
   5. the "not available" fallback.

 The player, map and events are collaborators; every effect on them is one
 constructor of `Action`. `Printed` is the text the interpreter writes itself
 and `Removals` the calls it makes to `remove_item`.
 */
module WorldCommand {
  import opened Wrappers
  import opened Text

  /** A tile event as the interpreter sees it: its visibility flag and the
      keyword that triggers it. What `run` does is the event's own business;
      running it is the `RunEvent` action. */
  datatype Event = Event(visible: bool, command: string)

  /** An inventory item as the drop branch sees it: the name it is displayed
      by and whether the player may throw it away. */
  datatype Item = Item(name: string, disposable: bool)

  datatype Direction = Up | Left | Down | Right

  /** The one effect an interpreted command has. */
  datatype Action =
    | Quit                        // returns at once: nothing is done, nothing printed
    | DropMissing(name: string)   // no such item in the inventory
    | DropRefused(item: Item)     // the item is kept: it is not disposable
    | Drop(item: Item)            // one unit of the item is removed
    | Equip(name: string)
    | Unequip(name: string)
    | Use(name: string)           // the player uses the item on themself
    | Move(direction: Direction)
    | Help
    | ShowMap(full: bool)         // `supermap` shows the whole map
    | ShowInventory
    | ShowStatus
    | Save(path: string)
    | RunEvent(index: nat)        // runs the tile event at this position
    | Unrecognised
  {
    /** Outcomes of the multi-word item verbs. */
    predicate IsItemVerb() {
      DropMissing? || DropRefused? || Drop? || Equip? || Unequip? || Use?
    }

    /** Outcomes of the exact-match built-in keywords. */
    predicate IsBuiltin() {
      Move? || Help? || ShowMap? || ShowInventory? || ShowStatus? || Save?
    }
  }

  /** One call `remove_item(item, count)` on the player's inventory. */
  datatype Removal = Removal(item: Item, count: nat)

  const QuitWord: string := "quit"
  const SavePath: string := "player.yaml"

  const SpecialCommandsHeader: string := "* Special commands: "
  const NoItemDropError: string := "You can't drop what you don't have!\n\n"
  const CannotDropMessage: string := "You cannot drop that item.\n\n"
  const UnrecognisedMessage: string :=
    "That isn't an available command at this time.\n" +
    "Type 'help' for a list of available commands.\n\n"

  /** The table of commands available everywhere, printed verbatim by `help`. */
  const DefaultCommands: string :=
    "     Command          Purpose\n" +
    "\n" +
    "        w (\U{2191})\n" +
    "  a (\U{2190}) s (\U{2193}) d (\U{2192})       Movement\n" +
    "\n" +
    "          help      Show the help menu\n" +
    "         map       Print the map\n" +
    "         supermap       Print all the map\n" +
    "          inv         Check inventory\n" +
    "        status         Show player status\n" +
    "      use [item]      Use the specified item\n" +
    "      drop [item]        Drop the specified item\n" +
    "     equip [item]      Equip the specified item\n" +
    "    unequip [item]    Unequip the specified item\n" +
    "         save              Save the game\n" +
    "         quit               Quit the game\n" +
    "\n" +
    "  "

  /** The first tokens that take an item name. */
  const ItemVerbs: set<string> := {"drop", "equip", "unequip", "use"}

  /** The whole-input keywords of the `case command` table. */
  const Keywords: set<string> := {"w", "a", "s", "d", "help", "map", "supermap", "inv", "status", "save"}

  /** The built-in keywords and what each does: the `case command` table,
      matched against the whole lower-cased input. */
  function Builtin(command: string): (r: Option<Action>)
    ensures r.Some? <==> command in Keywords
    ensures r.Some? ==> r.value.IsBuiltin()
    ensures r.Some? ==> IsToken(command) && IsLowercase(command)
    ensures r.Some? ==> command != QuitWord && command !in ItemVerbs
  {
    if command == "w" then Some(Move(Up))
    else if command == "a" then Some(Move(Left))
    else if command == "s" then Some(Move(Down))
    else if command == "d" then Some(Move(Right))
    else if command == "help" then Some(Help)
    else if command == "map" then Some(ShowMap(false))
    else if command == "supermap" then Some(ShowMap(true))
    else if command == "inv" then Some(ShowInventory)
    else if command == "status" then Some(ShowStatus)
    else if command == "save" then Some(Save(SavePath))
    else None
  }

  /** Every item verb is a single lower-case token other than `quit`. */
  lemma ItemVerbsAreTokens()
    ensures forall v :: v in ItemVerbs ==> IsToken(v) && IsLowercase(v) && v != QuitWord
  {
  }

  /** `quit` is one word. */
  lemma QuitIsOneWord()
    ensures Words(QuitWord) == [QuitWord]
  {
    WordsOfToken(QuitWord);
  }

  /** The tokens the interpreter works on: the lower-cased input split on
      whitespace. */
  function Tokens(input: string): (words: seq<string>)
    ensures forall i :: 0 <= i < |words| ==> IsToken(words[i]) && IsLowercase(words[i])
  {
    WordsOfLowercase(Lower(input));
    Words(Lower(input))
  }

  /** The item name: the tokens after the verb, joined by single spaces. */
  function ItemName(words: seq<string>): (name: string)
    requires |words| > 1
    requires forall i :: 0 <= i < |words| ==> IsToken(words[i])
    ensures SingleSpaced(name)
    ensures Words(name) == words[1..]
  {
    JoinSingleSpaced(words[1..]);
    WordsOfJoin(words[1..]);
    Join(words[1..], " ")
  }

  /** The outcome of the item verbs, or None when the first token is none of
      them. */
  function VerbAction(words: seq<string>, hasItem: string -> Option<Item>): (r: Option<Action>)
    requires |words| > 1
    requires forall i :: 0 <= i < |words| ==> IsToken(words[i])
    ensures r.Some? ==> r.value.IsItemVerb()
  {
    var name := ItemName(words);
    if EqualsIgnoreCase(words[0], "drop") then
      Some(match hasItem(name)
           case None => DropMissing(name)
           case Some(item) => if !item.disposable then DropRefused(item) else Drop(item))
    else if EqualsIgnoreCase(words[0], "equip") then Some(Equip(name))
    else if EqualsIgnoreCase(words[0], "unequip") then Some(Unequip(name))
    else if EqualsIgnoreCase(words[0], "use") then Some(Use(name))
    else None
  }

  /** Every outcome of the verb branch carries the rebuilt item name, and a
      drop outcome agrees with the inventory lookup: missing, kept because
      it is not disposable, or dropped because it is. */
  lemma VerbActionOutcomes(words: seq<string>, hasItem: string -> Option<Item>)
    requires |words| > 1
    requires forall i :: 0 <= i < |words| ==> IsToken(words[i])
    ensures var r := VerbAction(words, hasItem);
            r.Some? && (r.value.DropMissing? || r.value.Equip? || r.value.Unequip? || r.value.Use?) ==>
              r.value.name == ItemName(words)
    ensures var r := VerbAction(words, hasItem);
            r.Some? && r.value.DropMissing? ==> hasItem(ItemName(words)).None?
    ensures var r := VerbAction(words, hasItem);
            r.Some? && (r.value.DropRefused? || r.value.Drop?) ==>
              hasItem(ItemName(words)) == Some(r.value.item) && (r.value.Drop? <==> r.value.item.disposable)
  {
  }

  /** Event e is triggered by the word: it is visible and its command equals
      the word up to case. */
  predicate Matches(e: Event, word: string) {
    e.visible && EqualsIgnoreCase(word, e.command)
  }

  /** The position of the first event at or after `from` that the word
      triggers. */
  function FirstMatch(events: seq<Event>, word: string, from: nat): (r: Option<nat>)
    requires from <= |events|
    ensures r.Some? ==> from <= r.value < |events| && Matches(events[r.value], word)
    ensures r.Some? ==> forall j :: from <= j < r.value ==> !Matches(events[j], word)
    ensures r.None? ==> forall j :: from <= j < |events| ==> !Matches(events[j], word)
    decreases |events| - from
  {
    if from == |events| then None
    else if Matches(events[from], word) then Some(from)
    else FirstMatch(events, word, from + 1)
  }

  /** No event is triggered by the first token (an empty input has none). */
  predicate NoEventFor(events: seq<Event>, words: seq<string>) {
    |words| == 0 || forall i :: 0 <= i < |events| ==> !Matches(events[i], words[0])
  }

  /** The input takes the item-verb branch: two or more tokens, the first of
      them an item verb. */
  predicate TakesVerb(words: seq<string>) {
    |words| > 1 && words[0] in ItemVerbs
  }

  /** Every keyword yields a built-in outcome, and an input equal to a
      keyword is that single token. */
  lemma KeywordIsOneToken(input: string)
    ensures Builtin(Lower(input)).Some? ==> Builtin(Lower(input)).value.IsBuiltin()
    ensures Builtin(Lower(input)).Some? ==> Tokens(input) == [Lower(input)]
  {
    if Builtin(Lower(input)).Some? {
      WordsOfToken(Lower(input));
    }
  }

  /** Event dispatch and the fallback: the first event the first token
      triggers is run; when there is none, the command is not available. */
  function EventOrFallback(events: seq<Event>, words: seq<string>): (a: Action)
    ensures a.RunEvent? || a.Unrecognised?
    ensures a.RunEvent? ==>
              && a.index < |events|
              && |words| > 0
              && Matches(events[a.index], words[0])
              && forall j :: 0 <= j < a.index ==> !Matches(events[j], words[0])
    ensures a.Unrecognised? <==> NoEventFor(events, words)
  {
    if |words| == 0 then Unrecognised
    else match FirstMatch(events, words[0], 0)
      case Some(i) => RunEvent(i)
      case None => Unrecognised
  }

  /** `interpret_command`: the one outcome of an input line, given the events
      of the player's tile and the inventory lookup `has_item`. */
  function Interpret(input: string, events: seq<Event>, hasItem: string -> Option<Item>): (a: Action)
    ensures a.Quit? <==> Lower(input) == QuitWord
    ensures a.IsItemVerb() <==> Lower(input) != QuitWord && TakesVerb(Tokens(input))
    ensures a.IsBuiltin() <==> Builtin(Lower(input)).Some?
    ensures a.IsBuiltin() ==> Builtin(Lower(input)) == Some(a)
    ensures a.RunEvent? ==>
              && a.index < |events|
              && |Tokens(input)| > 0
              && Matches(events[a.index], Tokens(input)[0])
              && forall j :: 0 <= j < a.index ==> !Matches(events[j], Tokens(input)[0])
    ensures a.Unrecognised? <==>
              && Lower(input) != QuitWord
              && !TakesVerb(Tokens(input))
              && Builtin(Lower(input)).None?
              && NoEventFor(events, Tokens(input))
  {
    var command := Lower(input);
    if command == QuitWord then Quit
    else
      var words := Tokens(input);
      var verb := if |words| > 1 then VerbAction(words, hasItem) else None;
      VerbBranch(words, hasItem);
      KeywordIsOneToken(input);
      if verb.Some? then verb.value
      else if Builtin(command).Some? then Builtin(command).value
      else EventOrFallback(events, words)
  }

  /** The verb branch is taken exactly when the first of two or more tokens is
      an item verb, and then it yields an item-verb outcome. */
  lemma VerbBranch(words: seq<string>, hasItem: string -> Option<Item>)
    requires forall i :: 0 <= i < |words| ==> IsToken(words[i]) && IsLowercase(words[i])
    ensures |words| > 1 ==> (VerbAction(words, hasItem).Some? <==> TakesVerb(words))
    ensures |words| > 1 && VerbAction(words, hasItem).Some? ==> VerbAction(words, hasItem).value.IsItemVerb()
  {
    if |words| > 0 {
      VerbsAreExact(words[0]);
    }
  }

  /** A lower-case word equals an item verb up to case only when it is that
      verb. */
  lemma VerbsAreExact(w: string)
    requires IsLowercase(w)
    ensures forall v :: v in ItemVerbs ==> (EqualsIgnoreCase(w, v) <==> w == v)
  {
    ItemVerbsAreTokens();
    forall v | v in ItemVerbs
      ensures EqualsIgnoreCase(w, v) <==> w == v
    {
      EqualsIgnoreCaseOfLowercase(w, v);
    }
  }

  /** The commands of the visible events, in stored order. */
  function VisibleCommands(events: seq<Event>): (cs: seq<string>)
    ensures |cs| <= |events|
    ensures forall c :: c in cs <==> exists i :: 0 <= i < |events| && events[i].visible && events[i].command == c
  {
    if events == [] then []
    else
      var rest := VisibleCommands(events[1..]);
      assert forall i :: 1 <= i < |events| ==> events[i] == events[1..][i - 1];
      (if events[0].visible then [events[0].command] else []) + rest
  }

  /** `display_special_commands` decides on this: the visible commands when the
      tile has at least one visible event, None when it has none. */
  function SpecialCommands(events: seq<Event>): (r: Option<seq<string>>)
    ensures r.Some? <==> exists i :: 0 <= i < |events| && events[i].visible
    ensures r.Some? ==> |r.value| > 0 && r.value == VisibleCommands(events)
  {
    if |events| > 0 && exists i :: 0 <= i < |events| && events[i].visible then
      var i :| 0 <= i < |events| && events[i].visible;
      assert events[i].command in VisibleCommands(events);
      Some(VisibleCommands(events))
    else None
  }

  /** The special-commands line: the header, the visible commands joined by
      ", " and a blank line; nothing when no event is visible. */
  function SpecialCommandsLine(events: seq<Event>): (r: string)
    ensures r == "" <==> forall i :: 0 <= i < |events| ==> !events[i].visible
    ensures r != "" ==> SpecialCommandsHeader <= r
  {
    match SpecialCommands(events)
    case None => ""
    case Some(cs) => SpecialCommandsHeader + Join(cs, ", ") + "\n\n"
  }

  /** The text the interpreter itself prints for an outcome. Collaborators
      (moves, maps, inventory, status, saving, item verbs other than drop,
      events) print their own text, which is not modelled. */
  function Printed(a: Action, events: seq<Event>): (r: string)
    ensures r != "" <==> a.DropMissing? || a.DropRefused? || a.Drop? || a.Help? || a.Unrecognised?
    ensures a.Help? ==> DefaultCommands <= r
  {
    match a
    case DropMissing(_) => NoItemDropError
    case DropRefused(_) => CannotDropMessage
    case Drop(item) => "You have dropped " + item.name + ".\n\n"
    case Help => DefaultCommands + SpecialCommandsLine(events)
    case Unrecognised => UnrecognisedMessage
    case _ => ""
  }

  /** The `remove_item` calls the interpreter makes for an outcome. */
  function Removals(a: Action): (r: seq<Removal>)
    ensures |r| <= 1
    ensures r != [] <==> a.Drop?
    ensures forall x :: x in r ==> a.Drop? && x == Removal(a.item, 1)
  {
    if a.Drop? then [Removal(a.item, 1)] else []
  }
}

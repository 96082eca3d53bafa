# Goby world-map command interpreter, in Dafny

This project models the command interpreter of the Goby text-adventure
engine (`Goby::WorldCommand`). On the world map, the player types one line.
The interpreter lower-cases it and returns at once on `quit`. Otherwise it
splits the line on whitespace and picks exactly one outcome, in this order:

1. the item verbs `drop`, `equip`, `unequip` and `use`, taken only when there
   are two or more words; the item name is the remaining words joined by
   single spaces;
2. the built-in keywords `w`/`a`/`s`/`d`, `help`, `map`, `supermap`, `inv`,
   `status` and `save`, matched against the whole lower-cased line;
3. the first visible event of the player's tile whose command equals the first
   word, ignoring case;
4. the "That isn't an available command at this time." fallback.

`help` prints the default command table. It then prints the special-commands
line, which lists the visible events' commands, but only when the tile has at
least one visible event.

Layout:

- `wrappers.dfy`: `Option`.
- `text.dfy` (module `Text`): ASCII `downcase`, `casecmp(..).zero?` as
  `EqualsIgnoreCase`, and `split` as `Words`, together with its laws.
  `Join` models `join`, with its laws.
- `world_command.dfy` (module `WorldCommand`): `Event`, `Item`, `Action`,
  the keyword table `Builtin`, `Interpret`, `SpecialCommands`,
  `SpecialCommandsLine`, and `Printed`/`Removals`. These last two give the text
  the interpreter prints itself and the `remove_item` calls it makes.
- `world_command_properties.dfy` (module `WorldCommandProperties`): the dispatch
  precedence lemmas.

Each collaborator becomes a parameter or an `Action` constructor:

- The player's current tile becomes the `events: seq<Event>` parameter.
- `player.has_item(name)` followed by `player.inventory[index].first` becomes
  `hasItem: string -> Option<Item>`.
- `Item.name` is the text that `"#{item}"` prints.
- Moving, maps, inventory, status, `save_game`, `equip_item`, `unequip_item`,
  `use_item` and `event.run` are the `Action` constructors `Move`, `ShowMap`,
  `ShowInventory`, `ShowStatus`, `Save`, `Equip`, `Unequip`, `Use` and
  `RunEvent`.

## Model

| member | source | states |
|---|---|---|
| Text.Lower | lib/goby/world_command.rb:76 | lower-casing keeps the length and moves no whitespace; each of `A`-`Z` becomes the letter at the same place in `a`-`z`, and every other character is kept |
| Text.EqualsIgnoreCaseCharwise | lib/goby/world_command.rb:93-111 | `casecmp(..).zero?` holds iff both strings have the same length and each pair of characters folds to the same character |
| Text.EqualsIgnoreCaseOfLowercase | lib/goby/world_command.rb:93-111 | on already lower-cased words, `casecmp(..).zero?` is plain equality |
| Text.Words | lib/goby/world_command.rb:79 | `split` yields non-empty tokens without whitespace |
| Text.WordsOfLowercase | lib/goby/world_command.rb:76-79 | splitting a lower-cased line yields lower-case tokens |
| Text.WordsKeepEveryNonSpace | lib/goby/world_command.rb:79 | the tokens laid end to end are exactly the input's non-whitespace characters, in order |
| Text.WordsOfToken | lib/goby/world_command.rb:79 | a single word without whitespace splits to itself |
| Text.Join | lib/goby/world_command.rb:85-89 | an empty list joins to the empty string, one element joins to itself, and otherwise the length is the elements' total plus one separator between each two neighbours |
| Text.JoinSnoc | lib/goby/world_command.rb:86-89 | joining grows at the end by one separator and one word, as the name-building loop does; with the one-element case this fixes the joined text completely |
| Text.WordsOfJoin | lib/goby/world_command.rb:85-89 | joining tokens with single spaces and splitting again gives back the same tokens |
| Text.JoinSingleSpaced | lib/goby/world_command.rb:85-89 | joined tokens start with a non-space, and every whitespace in them is one ' ' followed by a non-space |
| WorldCommand.Tokens | lib/goby/world_command.rb:76-79 | the interpreter's words are lower-case tokens |
| WorldCommand.ItemName | lib/goby/world_command.rb:85-89 | the item name has no leading, trailing or doubled spaces, and it splits back into words 1..n-1 |
| WorldCommand.Builtin | lib/goby/world_command.rb:119-140 | the `case command` table answers exactly for the ten keywords; each keyword is a lower-case single word that is neither `quit` nor an item verb, and it yields a built-in outcome |
| WorldCommand.KeywordIsOneToken | lib/goby/world_command.rb:119-140 | an input equal to a keyword is one word, and it maps to a built-in outcome |
| WorldCommand.VerbBranch | lib/goby/world_command.rb:82-113 | the verb branch answers exactly when there are two or more words and the first is an item verb |
| WorldCommand.VerbAction | lib/goby/world_command.rb:93-113 | the verb branch yields only item-verb outcomes |
| WorldCommand.VerbActionOutcomes | lib/goby/world_command.rb:93-113 | every verb outcome carries the rebuilt name; a drop outcome agrees with the lookup: missing when it finds nothing, refused when the item is not disposable, dropped when it is |
| WorldCommand.VerbsAreExact | lib/goby/world_command.rb:93-111 | a lower-case word equals an item verb ignoring case only when it is that verb |
| WorldCommand.FirstMatch | lib/goby/world_command.rb:143-149 | finds the first event in stored order that is visible and whose command equals the word ignoring case, or reports that none does |
| WorldCommand.EventOrFallback | lib/goby/world_command.rb:142-154 | runs the first matching event, or falls back exactly when no event matches the first word or there is no word |
| WorldCommand.Interpret | lib/goby/world_command.rb:75-155 | gives `quit` iff the lower-cased input is exactly `quit`; gives an item verb iff the verb branch applies; gives a built-in iff the whole input is a keyword; runs only a visible, first-matching event; gives the fallback iff no earlier branch applies |
| WorldCommand.VisibleCommands | lib/goby/world_command.rb:44-47 | the list contains a command iff some visible event has it, and is no longer than the event list |
| WorldCommand.SpecialCommands | lib/goby/world_command.rb:40-48 | there is a special-commands list iff some event is visible; the list is then non-empty and holds the visible commands |
| WorldCommand.SpecialCommandsLine | lib/goby/world_command.rb:40-48 | the line is empty iff no event is visible, and otherwise starts with the special-commands header |
| WorldCommand.Printed | lib/goby/world_command.rb:93-154 | the interpreter prints text itself exactly for the three drop outcomes, `help` and the fallback; for `help` the default table comes first |
| WorldCommand.Removals | lib/goby/world_command.rb:100-101 | at most one `remove_item` call, made only on a successful drop, and it removes one unit of the dropped item |
| WorldCommandProperties.QuitIsSilent | lib/goby/world_command.rb:76-77 | `quit` in any case does nothing, prints nothing and removes nothing |
| WorldCommandProperties.WhitespaceDefeatsExactMatch | lib/goby/world_command.rb:77 | any whitespace in the input, even only around the word, rules out both `quit` and every keyword |
| WorldCommandProperties.KeywordActions | lib/goby/world_command.rb:119-140 | each keyword in any case does what its `when` arm does: `w`/`a`/`s`/`d` move up/left/down/right, `help` helps, `map` and `supermap` show part or all of the map, `inv` and `status` show the inventory and status, `save` saves to `player.yaml` |
| WorldCommandProperties.ExtraWordsDefeatBuiltins | lib/goby/world_command.rb:119-140 | an input of two or more words never triggers a keyword |
| WorldCommandProperties.VerbPrecedence | lib/goby/world_command.rb:82-113 | a multi-word item verb always dispatches to that verb, whatever events the tile has: `equip`, `unequip` and `use` with the rebuilt name, `drop` to one of its three outcomes (which DropOutcomes pins down) |
| WorldCommandProperties.BareVerbIsNoItemCommand | lib/goby/world_command.rb:82 | a verb typed alone is not an item command: it can only run an event or fall back |
| WorldCommandProperties.DropOutcomes | lib/goby/world_command.rb:93-106 | `drop` has three outcomes: a missing item prints the no-item message and removes nothing; an item that is not disposable prints "You cannot drop that item." and removes nothing; a disposable item is removed once, with a message naming it |
| WorldCommandProperties.InventoryChangesOnlyOnDrop | lib/goby/world_command.rb:93-106 | at most one `remove_item` call is made, and one is made iff a disposable item the player owns is dropped |
| WorldCommandProperties.OnlyVisibleSingleWordEventsRun | lib/goby/world_command.rb:145 | hidden events never run, and neither does an event whose command is empty or contains whitespace |
| WorldCommandProperties.BlankInputIsUnrecognised | lib/goby/world_command.rb:143-154 | empty or all-whitespace input matches no event and prints exactly the two-line fallback |
| WorldCommandProperties.FirstMatchIsFirst | lib/goby/world_command.rb:144-148 | the first visible matching event in stored order is the one chosen |
| WorldCommandProperties.LaterEventsDoNotMatter | lib/goby/world_command.rb:144-148 | first match wins: events appended after the one that runs do not change the outcome |
| WorldCommandProperties.HiddenEventsAreInert | lib/goby/world_command.rb:145 | changing hidden events in any way that keeps them hidden changes no outcome |
| WorldCommandProperties.OnlyFirstTokenSelectsEvent | lib/goby/world_command.rb:145 | event dispatch reads only the first word: two inputs with the same first word that reach it get the same outcome |
| WorldCommandProperties.VisibleCommandsAppend | lib/goby/world_command.rb:44-47 | stored order is kept: the visible commands of a concatenation are the first list's followed by the second's |
| WorldCommandProperties.VisibleCommandsOfOne | lib/goby/world_command.rb:45 | one event contributes its command iff it is visible |
| WorldCommandProperties.SpecialCommandsLineShape | lib/goby/world_command.rb:40-48 | the line is printed only when an event is visible; it is then the header, the visible commands joined by ", ", and a blank line |
| WorldCommandProperties.HelpPrintsTableThenSpecialLine | lib/goby/world_command.rb:54-57 | `help` in any case prints the default table first and then the special-commands line, and changes nothing |

## Left out

- `describe_tile` (`lib/goby/world_command.rb:62-69`) is not modelled. It is rendering glue: it prints the minimap and the tile description, then reuses the special-commands line, which is modelled.
- Collaborators are not modelled. `move_*`, `print_map`, `print_inventory`, `print_status`, `equip_item`, `unequip_item`, `use_item` and `remove_item` are defined in `Player`, `run` in `Event`, and `save_game` in the persistence code, all outside `WorldCommand`. Their output and effects are not part of this model. Each one is an `Action` constructor, and `Printed` covers only the text this module prints itself.
- `has_item` is defined in `Player`, outside `WorldCommand`, and is not modelled: it is the abstract `hasItem` parameter.
- `save_game` writes a file. File I/O is out of scope, so it is the opaque action `Save("player.yaml")`.
- Text.Lower: `downcase` folds all of Unicode, but the model lowers only ASCII `A`-`Z`. `casecmp` is ASCII-only in Ruby too.
- WorldCommand.DefaultCommands is the table's text, written out as a constant. Nothing is proved about its contents.
- Rebuilding the name with `<<` also changes `words[1]` in place. Nothing reads `words[1]` afterwards, so this is not modelled.
- `Item#to_s` is not part of this model. The drop message uses `Item.name` as the text the item prints as.

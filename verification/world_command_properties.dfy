/**
 The precedence rules of the world-map interpreter, stated over all inputs:
 what `quit` does, when the item verbs win, the three outcomes of `drop`,
 exact matching of the built-in keywords, first-match event dispatch, the
 fallback, and the special-commands line printed by `help`.
 */
module WorldCommandProperties {
  import opened Wrappers
  import opened Text
  import opened WorldCommand

  /** `quit`, in any case, does nothing and prints nothing. */
  lemma QuitIsSilent(input: string, events: seq<Event>, hasItem: string -> Option<Item>)
    requires Lower(input) == QuitWord
    ensures Interpret(input, events, hasItem) == Quit
    ensures Printed(Interpret(input, events, hasItem), events) == ""
    ensures Removals(Interpret(input, events, hasItem)) == []
  {
  }

  /** A whitespace character anywhere in the input (surrounding `quit` or a
      keyword, or between two words) rules out both `quit` and every built-in
      keyword: they need the whole input to equal them. */
  lemma WhitespaceDefeatsExactMatch(input: string, events: seq<Event>, hasItem: string -> Option<Item>, i: nat)
    requires i < |input| && IsSpace(input[i])
    ensures Interpret(input, events, hasItem) != Quit
    ensures !Interpret(input, events, hasItem).IsBuiltin()
  {
    assert IsSpace(Lower(input)[i]);
    assert !IsToken(Lower(input));
  }

  /** Each keyword, typed in any case and without surrounding whitespace,
      does what the `case command` table says. */
  lemma KeywordActions(input: string, events: seq<Event>, hasItem: string -> Option<Item>)
    ensures Lower(input) == "w" ==> Interpret(input, events, hasItem) == Move(Up)
    ensures Lower(input) == "a" ==> Interpret(input, events, hasItem) == Move(Left)
    ensures Lower(input) == "s" ==> Interpret(input, events, hasItem) == Move(Down)
    ensures Lower(input) == "d" ==> Interpret(input, events, hasItem) == Move(Right)
    ensures Lower(input) == "help" ==> Interpret(input, events, hasItem) == Help
    ensures Lower(input) == "map" ==> Interpret(input, events, hasItem) == ShowMap(false)
    ensures Lower(input) == "supermap" ==> Interpret(input, events, hasItem) == ShowMap(true)
    ensures Lower(input) == "inv" ==> Interpret(input, events, hasItem) == ShowInventory
    ensures Lower(input) == "status" ==> Interpret(input, events, hasItem) == ShowStatus
    ensures Lower(input) == "save" ==> Interpret(input, events, hasItem) == Save("player.yaml")
  {
  }

  /** An input of two or more words never reaches a built-in keyword. */
  lemma ExtraWordsDefeatBuiltins(input: string, events: seq<Event>, hasItem: string -> Option<Item>)
    requires |Tokens(input)| > 1
    ensures !Interpret(input, events, hasItem).IsBuiltin()
  {
    KeywordIsOneToken(input);
  }

  /** Item verbs win: two or more words starting with an item verb dispatch to
      that verb with the rebuilt name, whatever events the tile holds. */
  lemma VerbPrecedence(input: string, events: seq<Event>, other: seq<Event>, hasItem: string -> Option<Item>)
    requires TakesVerb(Tokens(input))
    ensures Interpret(input, events, hasItem).IsItemVerb()
    ensures Interpret(input, events, hasItem) == Interpret(input, other, hasItem)
    ensures Tokens(input)[0] == "drop" ==>
              var a := Interpret(input, events, hasItem);
              a.DropMissing? || a.DropRefused? || a.Drop?
    ensures Tokens(input)[0] == "equip" ==> Interpret(input, events, hasItem) == Equip(ItemName(Tokens(input)))
    ensures Tokens(input)[0] == "unequip" ==> Interpret(input, events, hasItem) == Unequip(ItemName(Tokens(input)))
    ensures Tokens(input)[0] == "use" ==> Interpret(input, events, hasItem) == Use(ItemName(Tokens(input)))
  {
    ItemVerbsAreTokens();
    QuitIsOneWord();
    VerbBranch(Tokens(input), hasItem);
  }

  /** A verb on its own is not an item command: it can only be a tile event
      or unrecognised. */
  lemma BareVerbIsNoItemCommand(input: string, events: seq<Event>, hasItem: string -> Option<Item>)
    requires |Tokens(input)| == 1 && Tokens(input)[0] in ItemVerbs
    ensures Interpret(input, events, hasItem).RunEvent? || Interpret(input, events, hasItem).Unrecognised?
  {
    ItemVerbsAreTokens();
    QuitIsOneWord();
    KeywordIsOneToken(input);
  }

  /** `drop` has exactly three outcomes: the item is missing, it is kept
      because it is not disposable, or one unit of it is removed. */
  lemma DropOutcomes(input: string, events: seq<Event>, hasItem: string -> Option<Item>)
    requires |Tokens(input)| > 1 && Tokens(input)[0] == "drop"
    ensures var name := ItemName(Tokens(input));
            var a := Interpret(input, events, hasItem);
            hasItem(name).None? ==>
              a == DropMissing(name) && Printed(a, events) == NoItemDropError && Removals(a) == []
    ensures var name := ItemName(Tokens(input));
            var a := Interpret(input, events, hasItem);
            hasItem(name).Some? && !hasItem(name).value.disposable ==>
              a == DropRefused(hasItem(name).value) && Printed(a, events) == CannotDropMessage && Removals(a) == []
    ensures var name := ItemName(Tokens(input));
            var a := Interpret(input, events, hasItem);
            hasItem(name).Some? && hasItem(name).value.disposable ==>
              && a == Drop(hasItem(name).value)
              && Printed(a, events) == "You have dropped " + hasItem(name).value.name + ".\n\n"
              && Removals(a) == [Removal(hasItem(name).value, 1)]
  {
    ItemVerbsAreTokens();
    QuitIsOneWord();
    VerbBranch(Tokens(input), hasItem);
    VerbsAreExact(Tokens(input)[0]);
  }

  /** The inventory changes, by exactly one unit, only when a disposable item
      the player owns is dropped. */
  lemma InventoryChangesOnlyOnDrop(input: string, events: seq<Event>, hasItem: string -> Option<Item>)
    ensures |Removals(Interpret(input, events, hasItem))| <= 1
    ensures Removals(Interpret(input, events, hasItem)) != [] <==>
              && |Tokens(input)| > 1
              && Tokens(input)[0] == "drop"
              && hasItem(ItemName(Tokens(input))).Some?
              && hasItem(ItemName(Tokens(input))).value.disposable
  {
    ItemVerbsAreTokens();
    QuitIsOneWord();
    VerbBranch(Tokens(input), hasItem);
    if |Tokens(input)| > 0 {
      VerbsAreExact(Tokens(input)[0]);
    }
  }

  /** Hidden events never run, and neither does an event whose command is
      empty or contains whitespace: the first token it is compared with is a
      non-empty word without whitespace. */
  lemma OnlyVisibleSingleWordEventsRun(input: string, events: seq<Event>, hasItem: string -> Option<Item>, i: nat)
    requires i < |events|
    ensures !events[i].visible ==> Interpret(input, events, hasItem) != RunEvent(i)
    ensures !IsToken(events[i].command) ==> Interpret(input, events, hasItem) != RunEvent(i)
  {
    if Interpret(input, events, hasItem) == RunEvent(i) {
      var w := Tokens(input)[0];
      var c := events[i].command;
      assert Lower(w) == Lower(c);
      forall j | 0 <= j < |c|
        ensures !IsSpace(c[j])
      {
        assert IsSpace(c[j]) == IsSpace(Lower(c)[j]);
        assert IsSpace(w[j]) == IsSpace(Lower(w)[j]);
      }
    }
  }

  /** Empty or blank input matches no keyword and no event: it is
      unrecognised, and only the two-line hint is printed. */
  lemma BlankInputIsUnrecognised(input: string, events: seq<Event>, hasItem: string -> Option<Item>)
    requires forall i :: 0 <= i < |input| ==> IsSpace(input[i])
    ensures Interpret(input, events, hasItem) == Unrecognised
    ensures Printed(Interpret(input, events, hasItem), events) == UnrecognisedMessage
    ensures Removals(Interpret(input, events, hasItem)) == []
  {
    assert Run(Lower(input), true) == |input|;
    assert Tokens(input) == [];
    if |input| > 0 {
      WhitespaceDefeatsExactMatch(input, events, hasItem, 0);
    }
  }

  /** The first event in stored order that the word triggers is the one
      `FirstMatch` finds. */
  lemma FirstMatchIsFirst(events: seq<Event>, word: string, i: nat)
    requires i < |events| && Matches(events[i], word)
    requires forall j :: 0 <= j < i ==> !Matches(events[j], word)
    ensures FirstMatch(events, word, 0) == Some(i)
  {
  }

  /** First match wins: events stored after the one that runs cannot change
      the outcome. */
  lemma LaterEventsDoNotMatter(input: string, events: seq<Event>, more: seq<Event>, hasItem: string -> Option<Item>)
    requires Interpret(input, events, hasItem).RunEvent?
    ensures Interpret(input, events + more, hasItem) == Interpret(input, events, hasItem)
  {
    var i := Interpret(input, events, hasItem).index;
    var w := Tokens(input)[0];
    assert forall j :: 0 <= j <= i ==> (events + more)[j] == events[j];
    FirstMatchIsFirst(events + more, w, i);
    FirstMatchIsFirst(events, w, i);
  }

  /** Hidden events are inert: changing a hidden event in any way that keeps
      it hidden leaves every outcome as it was. */
  lemma HiddenEventsAreInert(input: string, events: seq<Event>, other: seq<Event>, hasItem: string -> Option<Item>)
    requires |other| == |events|
    requires forall i :: 0 <= i < |events| && events[i].visible ==> other[i] == events[i]
    requires forall i :: 0 <= i < |events| && !events[i].visible ==> !other[i].visible
    ensures Interpret(input, events, hasItem) == Interpret(input, other, hasItem)
  {
    var words := Tokens(input);
    if |words| > 0 {
      var w := words[0];
      assert forall j :: 0 <= j < |events| ==> (Matches(events[j], w) <==> Matches(other[j], w));
      match FirstMatch(events, w, 0)
      case Some(i) =>
        FirstMatchIsFirst(other, w, i);
      case None =>
        assert FirstMatch(other, w, 0).None?;
    }
  }

  /** Event dispatch reads only the first token: two inputs that share it and
      reach event dispatch have the same outcome ("open chest" runs the
      "open" event just as "open" does). */
  lemma OnlyFirstTokenSelectsEvent(input: string, input': string, events: seq<Event>, hasItem: string -> Option<Item>)
    requires |Tokens(input)| > 0 && |Tokens(input')| > 0 && Tokens(input)[0] == Tokens(input')[0]
    requires Lower(input) != QuitWord && !TakesVerb(Tokens(input)) && Builtin(Lower(input)).None?
    requires Lower(input') != QuitWord && !TakesVerb(Tokens(input')) && Builtin(Lower(input')).None?
    ensures Interpret(input, events, hasItem) == Interpret(input', events, hasItem)
  {
    VerbBranch(Tokens(input), hasItem);
    VerbBranch(Tokens(input'), hasItem);
  }

  /** Stored order is kept: the visible commands of two event lists laid end
      to end are those of the first followed by those of the second. */
  lemma {:induction false} VisibleCommandsAppend(a: seq<Event>, b: seq<Event>)
    ensures VisibleCommands(a + b) == VisibleCommands(a) + VisibleCommands(b)
    decreases |a|
  {
    if a == [] {
      assert a + b == b;
    } else {
      var head := if a[0].visible then [a[0].command] else [];
      assert (a + b)[0] == a[0];
      assert (a + b)[1..] == a[1..] + b;
      VisibleCommandsAppend(a[1..], b);
      assert VisibleCommands(a + b) == head + VisibleCommands(a[1..] + b);
      assert VisibleCommands(a) == head + VisibleCommands(a[1..]);
    }
  }

  /** One event contributes its command exactly when it is visible; with
      VisibleCommandsAppend this pins the list down completely. */
  lemma VisibleCommandsOfOne(e: Event)
    ensures VisibleCommands([e]) == (if e.visible then [e.command] else [])
  {
    assert [e][1..] == [];
  }

  /** The special-commands line is printed only when some event on the tile
      is visible, and then it is the header, exactly the visible commands in
      stored order joined by ", ", and a blank line. */
  lemma SpecialCommandsLineShape(events: seq<Event>)
    ensures (exists i :: 0 <= i < |events| && events[i].visible) ==>
              SpecialCommandsLine(events) ==
                SpecialCommandsHeader + Join(VisibleCommands(events), ", ") + "\n\n"
    ensures (forall i :: 0 <= i < |events| ==> !events[i].visible) ==>
              SpecialCommandsLine(events) == ""
  {
    if exists i :: 0 <= i < |events| && events[i].visible {
      assert SpecialCommands(events) == Some(VisibleCommands(events));
    } else {
      assert SpecialCommands(events) == None;
    }
  }

  /** `help`, in any case, prints the default table first and then the
      special-commands line. */
  lemma HelpPrintsTableThenSpecialLine(input: string, events: seq<Event>, hasItem: string -> Option<Item>)
    requires Lower(input) == "help"
    ensures Interpret(input, events, hasItem) == Help
    ensures Printed(Interpret(input, events, hasItem), events) == DefaultCommands + SpecialCommandsLine(events)
    ensures Removals(Interpret(input, events, hasItem)) == []
  {
    var a := Interpret(input, events, hasItem);
    assert a == Help;
  }
}

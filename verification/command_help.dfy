/**
  The wiki-specific extension of the keyboard-shortcut listing
  (`ve.ui.MWCommandHelpDialog.static.getCommandGroups`): it adds the save
  shortcut, built from the browser's access-key prefix and the wiki's save
  access key, to the "other" group of the generic listing.
 */
module CommandHelp {
  import opened Text

  /** One listed command: its key combinations and the message key describing it. */
  datatype Command = Command(shortcuts: seq<string>, msg: string)

  /** A titled group of commands. */
  datatype CommandGroup = CommandGroup(title: string, commands: seq<Command>)

  /** The groups of the listing, by name. */
  type CommandGroups = map<string, CommandGroup>

  /** The group the save shortcut goes to. */
  const OtherGroup: string := "other"

  /** The message key describing the save shortcut. */
  const SaveMsg: string := "visualeditor-savedialog-label-save"

  /** The browser's access-key prefix (such as "alt-shift-") upper-cased, each "-" written " + ". */
  function AccessKeyPrefix(tooltipPrefix: string, upper: string -> string): (p: string)
    ensures forall i :: 0 <= i < |p| ==> p[i] != '-'
    ensures (forall i :: 0 <= i < |upper(tooltipPrefix)| ==> upper(tooltipPrefix)[i] != '-') ==> p == upper(tooltipPrefix)
  {
    var u := upper(tooltipPrefix);
    assert (forall i :: 0 <= i < |u| ==> u[i] != '-') ==> ReplaceChar(u, '-', " + ") == u by {
      if forall i :: 0 <= i < |u| ==> u[i] != '-' {
        ReplaceCharNoop(u, '-', " + ");
      }
    }
    ReplaceChar(u, '-', " + ")
  }

  /** The wiki defines a save access key: the message is neither "-" nor empty. */
  predicate HasSaveKey(save: string) {
    save != "-" && save != ""
  }

  /** The entry describing the save shortcut. */
  function SaveCommand(tooltipPrefix: string, save: string, upper: string -> string): Command {
    Command([AccessKeyPrefix(tooltipPrefix, upper) + upper(save)], SaveMsg)
  }

  /**
    `getCommandGroups`: the generic listing `base`, with the save shortcut
    appended to the "other" group when the wiki defines a save access key.
    The generic listing always has an "other" group; without one the source
    would fail on the property access.
   */
  function GetCommandGroups(base: CommandGroups, tooltipPrefix: string, save: string, upper: string -> string): (r: CommandGroups)
    requires OtherGroup in base
    ensures r.Keys == base.Keys
    ensures forall g :: g in base && g != OtherGroup ==> r[g] == base[g]
    ensures r[OtherGroup].title == base[OtherGroup].title
    ensures HasSaveKey(save) ==>
      && |r[OtherGroup].commands| == |base[OtherGroup].commands| + 1
      && r[OtherGroup].commands[..|base[OtherGroup].commands|] == base[OtherGroup].commands
      && r[OtherGroup].commands[|base[OtherGroup].commands|] == SaveCommand(tooltipPrefix, save, upper)
    ensures !HasSaveKey(save) ==> r == base
  {
    if HasSaveKey(save) then
      var other := base[OtherGroup];
      base[OtherGroup := other.(commands := other.commands + [SaveCommand(tooltipPrefix, save, upper)])]
    else base
  }

  /** The save entry reads as the prefix followed by the upper-cased key, under the save message. */
  lemma SaveShortcutShape(base: CommandGroups, tooltipPrefix: string, save: string, upper: string -> string)
    requires OtherGroup in base && HasSaveKey(save)
    ensures var cmds := GetCommandGroups(base, tooltipPrefix, save, upper)[OtherGroup].commands;
      && cmds[|cmds| - 1].shortcuts == [AccessKeyPrefix(tooltipPrefix, upper) + upper(save)]
      && cmds[|cmds| - 1].msg == SaveMsg
  {
  }

  /** A dash-free piece followed by a dash reads as the piece followed by " + ". */
  lemma {:induction false} DashBecomesPlus(a: string)
    requires forall i :: 0 <= i < |a| ==> a[i] != '-'
    ensures ReplaceChar(a + "-", '-', " + ") == a + " + "
  {
    ReplaceCharAppend(a, "-", '-', " + ");
    ReplaceCharNoop(a, '-', " + ");
    assert ReplaceChar("-", '-', " + ") == " + " + ReplaceChar("", '-', " + ");
  }

  /**
    An example of `AccessKeyPrefixReads`, the parts `[first, second, ""]`: a
    two-modifier prefix such as "alt-shift-", once upper-cased to
    `first + "-" + second + "-"`, reads `first + " + " + second + " + "`.
   */
  lemma {:induction false} TwoModifierPrefix(tooltipPrefix: string, upper: string -> string, first: string, second: string)
    requires upper(tooltipPrefix) == first + "-" + second + "-"
    requires forall i :: 0 <= i < |first| ==> first[i] != '-'
    requires forall i :: 0 <= i < |second| ==> second[i] != '-'
    ensures AccessKeyPrefix(tooltipPrefix, upper) == first + " + " + second + " + "
  {
    DashBecomesPlus(first);
    DashBecomesPlus(second);
    assert upper(tooltipPrefix) == (first + "-") + (second + "-");
    ReplaceCharAppend(first + "-", second + "-", '-', " + ");
  }

  /** Dash-free pieces joined by "-" read, once each "-" is replaced, as the same pieces joined by " + ". */
  lemma {:induction false} DashesBecomePlus(parts: seq<string>)
    requires forall i :: 0 <= i < |parts| ==> '-' !in parts[i]
    ensures ReplaceChar(Join(parts, "-"), '-', " + ") == Join(parts, " + ")
    decreases |parts|
  {
    if |parts| == 1 {
      ReplaceCharNoop(parts[0], '-', " + ");
    } else if |parts| > 1 {
      var rest := parts[1..];
      assert forall i :: 0 <= i < |rest| ==> rest[i] == parts[i + 1];
      DashesBecomePlus(rest);
      DashBecomesPlus(parts[0]);
      assert Join(parts, "-") == (parts[0] + "-") + Join(rest, "-");
      ReplaceCharAppend(parts[0] + "-", Join(rest, "-"), '-', " + ");
    }
  }

  /**
    Any access-key prefix: split its upper-cased form at every "-" into
    `parts` (a trailing "-" leaves an empty last part); the displayed prefix
    is the same parts joined by " + ", every other character kept in place.
   */
  lemma AccessKeyPrefixReads(tooltipPrefix: string, upper: string -> string, parts: seq<string>)
    requires forall i :: 0 <= i < |parts| ==> '-' !in parts[i]
    requires upper(tooltipPrefix) == Join(parts, "-")
    ensures AccessKeyPrefix(tooltipPrefix, upper) == Join(parts, " + ")
  {
    DashesBecomePlus(parts);
  }
}

/** The core `Heat` plugin: the command-line parser it hands server
    commands through, the handler that re-applies plugin commands when the
    engine registers a native command, and the server-initialised flag. */
module Heat {
  import opened Wrappers
  import opened Text
  import opened Tokenizer
  import opened Commands

  /** `ParseCommand`: one pass over the line with a quote flag and a buffer;
      no token gives `cmd = null, args = null`. */
  method ParseCommand(argstr: string) returns (cmd: Option<string>, args: Option<seq<string>>)
    ensures cmd.None? <==> args.None?
    ensures cmd.None? <==> Significant(argstr) == []
    ensures cmd.Some? ==> [cmd.value] + args.value == Tokens(argstr)
  {
    var arglist: seq<string> := [];
    var sb: string := "";
    var inlongarg := false;
    for i := 0 to |argstr|
      invariant ScanState(arglist, sb, inlongarg) == Scan(argstr[..i])
    {
      var c := argstr[i];
      assert argstr[..i + 1] == argstr[..i] + [c];
      ScanSnoc(argstr[..i], c);
      if c == '"' {
        if inlongarg {
          var arg := Trim(sb);
          if arg != "" {
            arglist := arglist + [arg];
          }
          sb := "";
          inlongarg := false;
        } else {
          inlongarg := true;
        }
      } else if IsWhiteSpace(c) && !inlongarg {
        var arg := Trim(sb);
        if arg != "" {
          arglist := arglist + [arg];
        }
        sb := "";
      } else {
        sb := sb + [c];
      }
    }
    assert argstr[..|argstr|] == argstr;
    if |sb| > 0 {
      var arg := Trim(sb);
      if arg != "" {
        arglist := arglist + [arg];
      }
    }
    NoTokensIffBlank(argstr);
    if |arglist| == 0 {
      return None, None;
    }
    cmd := Some(arglist[0]);
    args := Some(arglist[1..]);
  }

  /** The arguments with which the `OnServerCommand` hook is called. */
  datatype HookCall = HookCall(cmd: string, args: seq<string>)

  /** `IOnServerCommand`: `handled` stands for returning `true`, its absence
      for returning null; `call` is the hook call made, if any, and `hook`
      says whether a hook subscriber returned a non-null value. */
  method OnServerCommand(str: string, hook: (string, seq<string>) -> bool) returns (handled: bool, call: Option<HookCall>)
    ensures str == [] ==> call.None?
    ensures call.None? <==> Significant(TrimStartOf(str, '/')) == []
    ensures call.Some? ==>
      [call.value.cmd] + call.value.args == Tokens(TrimStartOf(str, '/'))
    ensures handled <==> call.Some? && hook(call.value.cmd, call.value.args)
  {
    if |str| == 0 {
      return false, None;
    }
    var message := TrimStartOf(str, '/');
    var cmd, args := ParseCommand(message);
    if cmd.None? {
      return false, None;
    }
    call := Some(HookCall(cmd.value, args.value));
    handled := hook(cmd.value, args.value);
  }

  /** `word word`: two tokens. */
  lemma TwoWordLine(line: string, a: string, b: string)
    requires IsWord(a) && IsWord(b)
    requires line == a + " " + b
    ensures Tokens(line) == [a, b]
  {
    var p := a + [' '];
    FirstWordToken(a);
    LastWordToken(p, [a], b);
    assert a + " " + b == p + b;
  }

  /** `/grant admin` and `//grant admin` both reach the hook as command
      `grant` with the single argument `admin`: every leading slash goes. */
  lemma GrantExample(line: string, slashes: nat)
    requires line == seq(slashes, _ => '/') + "grant admin"
    ensures Tokens(TrimStartOf(line, '/')) == ["grant", "admin"]
  {
    var m := "grant" + " " + "admin";
    assert TrimStartOf(line, '/') == m by {
      assert "grant admin" == m;
      TrimStartOfPrefix(slashes, m, '/');
    }
    TwoWordLine(TrimStartOf(line, '/'), "grant", "admin");
  }

  // ---------------------------------------------------------------------
  // Re-applying plugin commands over late native registrations

  /** One name of a newly registered native attribute: a plugin entry held
      under that exact name is removed and registered again with the same
      name, owner and callback. */
  function ReapplyOne(t: Tables, command: string): (r: Tables)
    requires ValidTables(t)
    ensures ValidTables(r)
    ensures r.registered.Keys == t.registered.Keys
  {
    if command in t.registered then
      var cmd := t.registered[command];
      var t' := t.(registered := t.registered - {cmd.command});
      RegisterPreservesValid(t', cmd.command, cmd.source, cmd.callback);
      Register(t', cmd.command, cmd.source, cmd.callback).value
    else
      t
  }

  /** The handler looks names up as given: a name that is not already
      normalised is never a key, so its turn changes nothing. */
  lemma ReapplyRawNameMisses(t: Tables, command: string)
    requires ValidTables(t) && Normalise(command) != command
    ensures ReapplyOne(t, command) == t
  {
  }

  /** The handler over the attribute's name followed by its aliases. */
  function Reapply(t: Tables, names: seq<string>): (r: Tables)
    requires ValidTables(t)
    ensures ValidTables(r)
    ensures r.registered.Keys == t.registered.Keys
  {
    if names == [] then t else ReapplyOne(Reapply(t, names[..|names| - 1]), names[|names| - 1])
  }

  /** The warnings the handler logs: re-registering a claimed name that the
      native table holds at that moment logs that the name was registered
      before, one warning per such name. */
  ghost function ReapplyWarnings(t: Tables, names: seq<string>): (n: nat)
    requires ValidTables(t)
    ensures n <= |names|
  {
    if names == [] then 0
    else
      var init, c := names[..|names| - 1], names[|names| - 1];
      var r := Reapply(t, init);
      ReapplyWarnings(t, init) + if c in r.registered && c in r.native then 1 else 0
  }

  /** Names that no plugin claims log no warning. */
  lemma {:induction false} ReapplyWarningsUnclaimed(t: Tables, names: seq<string>)
    requires ValidTables(t)
    requires forall i | 0 <= i < |names| :: names[i] !in t.registered
    ensures ReapplyWarnings(t, names) == 0
  {
    if names != [] {
      ReapplyWarningsUnclaimed(t, names[..|names| - 1]);
    }
  }

  /** One more name is one more step of the handler, with its warning. */
  lemma ReapplyStep(t: Tables, names: seq<string>, i: nat)
    requires ValidTables(t) && i < |names|
    ensures var r := Reapply(t, names[..i]);
      && Reapply(t, names[..i + 1]) == ReapplyOne(r, names[i])
      && ReapplyWarnings(t, names[..i + 1]) == ReapplyWarnings(t, names[..i]) +
           if names[i] in r.registered && names[i] in r.native then 1 else 0
  {
    assert names[..i + 1][..i] == names[..i];
  }

  /** Re-registering a claimed name warns exactly when the native table
      holds it. */
  lemma ReregisterWarnings(t: Tables, command: string)
    requires ValidTables(t) && command in t.registered
    ensures RegisterWarnings(t.(registered := t.registered - {command}), command) ==
      if command in t.native then 1 else 0
  {
  }

  /** Re-registering an entry held under its own normalised name. */
  lemma Reregister(t: Tables, command: string)
    requires command in t.registered
    requires t.registered[command].command == command
    requires Normalise(command) == command && command != ""
    ensures var cmd := t.registered[command];
      var original := if command in t.native then Some(t.native[command]) else None;
      Register(t.(registered := t.registered - {command}), command, cmd.source, cmd.callback) ==
        Success(Tables(t.registered[command := cmd.(originalCallback := original)], t.native[command := Bridge]))
  {
    var cmd := t.registered[command];
    var t' := t.(registered := t.registered - {command});
    assert (t.registered - {command})[command := cmd.(originalCallback := CarriedOriginal(t', command))]
        == t.registered[command := cmd.(originalCallback := CarriedOriginal(t', command))];
  }

  /** What re-registering a single name does: the entry keeps its owner,
      name and callback, records whatever the native table holds now as its
      original callback, and the native table gets the bridge back. */
  lemma ReapplyOneEffect(t: Tables, command: string)
    requires ValidTables(t)
    ensures command !in t.registered ==> ReapplyOne(t, command) == t
    ensures command in t.registered ==>
      var cmd := t.registered[command];
      var original := if command in t.native then Some(t.native[command]) else None;
      && ReapplyOne(t, command).registered == t.registered[command := cmd.(originalCallback := original)]
      && ReapplyOne(t, command).native == t.native[command := Bridge]
  {
    if command in t.registered {
      assert t.registered[command].command == command && Normalise(command) == command && command != "";
      Reregister(t, command);
    }
  }

  /** The count of `k` among the names. */
  function Occurrences(names: seq<string>, k: string): nat {
    multiset(names)[k]
  }

  lemma OccurrencesSnoc(init: seq<string>, last: string, k: string)
    ensures Occurrences(init + [last], k) == Occurrences(init, k) + (if k == last then 1 else 0)
  {
    assert multiset(init + [last]) == multiset(init) + multiset{last};
  }

  // One more name of the attribute, seen from one key.

  lemma OwnerKept(r: Tables, command: string, k: string)
    requires ValidTables(r) && k in r.registered
    ensures var e := ReapplyOne(r, command).registered[k];
      e.source == r.registered[k].source && e.command == r.registered[k].command &&
      e.callback == r.registered[k].callback
  {
    ReapplyOneEffect(r, command);
  }

  lemma EntryKept(r: Tables, command: string, k: string)
    requires ValidTables(r) && k in r.registered && k != command
    ensures ReapplyOne(r, command).registered[k] == r.registered[k]
  {
    ReapplyOneEffect(r, command);
  }

  lemma NativeKept(r: Tables, command: string, k: string)
    requires ValidTables(r) && !(k == command && k in r.registered)
    ensures var n := ReapplyOne(r, command).native;
      (k in n <==> k in r.native) && (k in r.native ==> n[k] == r.native[k])
  {
    ReapplyOneEffect(r, command);
  }

  lemma OriginalOnReapply(r: Tables, command: string)
    requires ValidTables(r) && command in r.registered
    ensures ReapplyOne(r, command).registered[command].originalCallback ==
      if command in r.native then Some(r.native[command]) else None
  {
    ReapplyOneEffect(r, command);
  }

  /** The handler keeps every entry's owner, name and callback, and the
      set of claimed names. */
  lemma {:induction false} ReapplyKeepsOwners(t: Tables, names: seq<string>)
    requires ValidTables(t)
    ensures var r := Reapply(t, names);
      forall k | k in t.registered ::
            && r.registered[k].source == t.registered[k].source
            && r.registered[k].command == t.registered[k].command
            && r.registered[k].callback == t.registered[k].callback
  {
    if names != [] {
      var init, last := names[..|names| - 1], names[|names| - 1];
      ReapplyKeepsOwners(t, init);
      forall k | k in t.registered
        ensures var e := Reapply(t, names).registered[k];
          e.source == t.registered[k].source && e.command == t.registered[k].command &&
          e.callback == t.registered[k].callback
      {
        OwnerKept(Reapply(t, init), last, k);
      }
    }
  }

  /** A claimed name that is not among the attribute's names keeps its
      entry. */
  lemma {:induction false} ReapplyLeavesEntries(t: Tables, names: seq<string>)
    requires ValidTables(t)
    ensures var r := Reapply(t, names);
      forall k | k in t.registered && Occurrences(names, k) == 0 :: r.registered[k] == t.registered[k]
  {
    if names != [] {
      var init, last := names[..|names| - 1], names[|names| - 1];
      assert names == init + [last];
      ReapplyLeavesEntries(t, init);
      forall k | k in t.registered && Occurrences(names, k) == 0
        ensures Reapply(t, names).registered[k] == t.registered[k]
      {
        OccurrencesSnoc(init, last, k);
        EntryKept(Reapply(t, init), last, k);
      }
    }
  }

  /** A name that is not claimed keeps its native entry or its absence, and
      so does a claimed name that is not among the attribute's names. */
  lemma {:induction false} ReapplyLeavesNatives(t: Tables, names: seq<string>)
    requires ValidTables(t)
    ensures var r := Reapply(t, names);
      forall k | !(k in t.registered && Occurrences(names, k) > 0) ::
        (k in r.native <==> k in t.native) && (k in t.native ==> r.native[k] == t.native[k])
  {
    if names != [] {
      var init, last := names[..|names| - 1], names[|names| - 1];
      assert names == init + [last];
      ReapplyLeavesNatives(t, init);
      forall k | !(k in t.registered && Occurrences(names, k) > 0)
        ensures var n := Reapply(t, names).native;
          (k in n <==> k in t.native) && (k in t.native ==> n[k] == t.native[k])
      {
        OccurrencesSnoc(init, last, k);
        NativeKept(Reapply(t, init), last, k);
      }
    }
  }

  /** A name that is bridged, or that is re-registered now, is bridged
      after one more name of the attribute. */
  lemma BridgeKept(r: Tables, command: string, k: string)
    requires ValidTables(r)
    requires k in r.registered
    requires k == command || (k in r.native && r.native[k] == Bridge)
    ensures k in ReapplyOne(r, command).native && ReapplyOne(r, command).native[k] == Bridge
  {
    ReapplyOneEffect(r, command);
  }

  /** Every claimed name among the attribute's names is bridged again. */
  lemma {:induction false} ReapplyBridgesClaimed(t: Tables, names: seq<string>)
    requires ValidTables(t)
    ensures var r := Reapply(t, names);
      forall k | k in t.registered && Occurrences(names, k) > 0 :: k in r.native && r.native[k] == Bridge
  {
    if names != [] {
      var init, last := names[..|names| - 1], names[|names| - 1];
      assert names == init + [last];
      ReapplyBridgesClaimed(t, init);
      forall k | k in t.registered && Occurrences(names, k) > 0
        ensures k in Reapply(t, names).native && Reapply(t, names).native[k] == Bridge
      {
        OccurrencesSnoc(init, last, k);
        BridgeKept(Reapply(t, init), last, k);
      }
    }
  }

  lemma FirstOriginalStep(t: Tables, r: Tables, command: string, k: string)
    requires ValidTables(r) && k in r.registered
    requires k == command ==>
      (k in r.native <==> k in t.native) && (k in t.native ==> r.native[k] == t.native[k])
    requires k != command ==>
      r.registered[k].originalCallback == if k in t.native then Some(t.native[k]) else None
    ensures ReapplyOne(r, command).registered[k].originalCallback ==
      if k in t.native then Some(t.native[k]) else None
  {
    if k == command {
      OriginalOnReapply(r, command);
    } else {
      EntryKept(r, command, k);
    }
  }

  /** A claimed name that occurs once among the attribute's names records
      the native entry it found, or none. */
  lemma {:induction false} ReapplyFirstOriginal(t: Tables, names: seq<string>)
    requires ValidTables(t)
    ensures var r := Reapply(t, names);
      forall k | k in t.registered && Occurrences(names, k) == 1 ::
        r.registered[k].originalCallback == if k in t.native then Some(t.native[k]) else None
  {
    if names != [] {
      var init, last := names[..|names| - 1], names[|names| - 1];
      assert names == init + [last];
      ReapplyFirstOriginal(t, init);
      ReapplyLeavesNatives(t, init);
      forall k | k in t.registered && Occurrences(names, k) == 1
        ensures Reapply(t, names).registered[k].originalCallback ==
          if k in t.native then Some(t.native[k]) else None
      {
        OccurrencesSnoc(init, last, k);
        FirstOriginalStep(t, Reapply(t, init), last, k);
      }
    }
  }

  lemma RepeatedOriginalStep(r: Tables, command: string, k: string)
    requires ValidTables(r) && k in r.registered
    requires k == command ==> k in r.native && r.native[k] == Bridge
    requires k != command ==> r.registered[k].originalCallback == Some(Bridge)
    ensures ReapplyOne(r, command).registered[k].originalCallback == Some(Bridge)
  {
    if k == command {
      OriginalOnReapply(r, command);
    } else {
      EntryKept(r, command, k);
    }
  }

  /** A claimed name that occurs more than once records the bridge that its
      earlier re-registration left in the native table. */
  lemma {:induction false} ReapplyRepeatedOriginal(t: Tables, names: seq<string>)
    requires ValidTables(t)
    ensures var r := Reapply(t, names);
      forall k | k in t.registered && Occurrences(names, k) > 1 ::
        r.registered[k].originalCallback == Some(Bridge)
  {
    if names != [] {
      var init, last := names[..|names| - 1], names[|names| - 1];
      assert names == init + [last];
      ReapplyRepeatedOriginal(t, init);
      ReapplyBridgesClaimed(t, init);
      forall k | k in t.registered && Occurrences(names, k) > 1
        ensures Reapply(t, names).registered[k].originalCallback == Some(Bridge)
      {
        OccurrencesSnoc(init, last, k);
        RepeatedOriginalStep(Reapply(t, init), last, k);
      }
    }
  }

  // ---------------------------------------------------------------------
  // The plugin object

  /** The state of the core plugin that the model keeps: the command system
      it re-applies commands to and the server-initialised flag. */
  class Heat {
    const commands: CommandSystem
    var serverInitialized: bool
    /** How often the server set-up has run. */
    ghost var setupRuns: nat

    ghost predicate Valid()
      reads this, commands
    {
      commands.Valid() && setupRuns == if serverInitialized then 1 else 0
    }

    constructor (system: CommandSystem)
      requires system.Valid()
      ensures Valid()
      ensures commands == system && !serverInitialized
    {
      commands := system;
      serverInitialized := false;
      setupRuns := 0;
    }

    /** The `CommandManager.OnRegisterCommand` handler. */
    method OnRegisterCommand(name: string, aliases: seq<string>)
      requires Valid()
      modifies commands
      ensures Valid()
      ensures commands.State() == Reapply(old(commands.State()), [name] + aliases)
      ensures commands.warnings == old(commands.warnings) + ReapplyWarnings(old(commands.State()), [name] + aliases)
    {
      var names := [name] + aliases;
      ghost var t := commands.State();
      ghost var w := commands.warnings;
      for i := 0 to |names|
        invariant commands.Valid()
        invariant commands.State() == Reapply(t, names[..i])
        invariant commands.warnings == w + ReapplyWarnings(t, names[..i])
      {
        ReapplyStep(t, names, i);
        ReapplyName(names[i]);
      }
      assert names[..|names|] == names;
    }

    /** One pass of the handler's loop: a claimed name is removed and
        registered again under the same owner and callback. */
    method ReapplyName(command: string)
      requires commands.Valid()
      modifies commands
      ensures commands.Valid()
      ensures commands.State() == ReapplyOne(old(commands.State()), command)
      ensures commands.warnings == old(commands.warnings) +
        if command in old(commands.registeredCommands) && command in old(commands.nativeCommands) then 1 else 0
    {
      ghost var before := commands.State();
      if command in commands.registeredCommands {
        var universal := commands.registeredCommands[command];
        commands.registeredCommands := commands.registeredCommands - {universal.command};
        ghost var removed := commands.State();
        assert universal.command == command && removed == before.(registered := before.registered - {command});
        ReregisterWarnings(before, command);
        var error := commands.RegisterCommand(universal.command, universal.source, universal.callback);
        assert error.None?;
      }
    }

    /** `OnServerInitialized`: the set-up runs only while the flag is unset,
      and then sets it. */
    method OnServerInitialized() returns (ranSetup: bool)
      requires Valid()
      modifies this
      ensures Valid()
      ensures ranSetup == !old(serverInitialized)
      ensures serverInitialized
      ensures setupRuns == old(setupRuns) + (if ranSetup then 1 else 0)
    {
      ranSetup := false;
      if !serverInitialized {
        setupRuns := setupRuns + 1;
        ranSetup := true;
        serverInitialized := true;
      }
    }

    /** `OnPluginLoaded`: whether the server-initialised hook is forwarded
      to the newly loaded plugin. */
    method OnPluginLoaded(plugin: Plugin) returns (forwarded: bool)
      ensures forwarded == serverInitialized
    {
      forwarded := serverInitialized;
    }
  }
}

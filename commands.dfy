/** The command registry of `HeatCommands`: the plugin-owned table of
    registered commands and the engine's native command table, which the
    registry overwrites with a bridge entry for every name a plugin claims
    and restores or clears when the plugin releases it. */
module Commands {
  import opened Wrappers
  import opened Text

  /** A plugin; `id` stands for the object's identity, so two plugins with
      the same name are still different owners. */
  datatype Plugin = Plugin(id: nat, name: string, isCore: bool)

  /** An opaque plugin callback; what it returns is supplied by an oracle. */
  datatype Callback = Callback(id: nat)

  /** An entry of the engine's native table: an engine command, or the
      bridge attribute that routes the name back into this registry. */
  datatype NativeCommand = Native(id: nat) | Bridge

  datatype RegisteredCommand = RegisteredCommand(
    source: Plugin,
    command: string,
    callback: Callback,
    originalCallback: Option<NativeCommand>)

  datatype Error = CommandAlreadyExists(command: string)

  /** Both tables, as one value. */
  datatype Tables = Tables(
    registered: map<string, RegisteredCommand>,
    native: map<string, NativeCommand>)

  /** The names no plugin may claim unless a core plugin already holds them. */
  const RestrictedCommands: set<string> := {""}

  /** `command.ToLowerInvariant().Trim()`. */
  function Normalise(command: string): (name: string)
    ensures |name| <= |command|
  {
    Trim(Lower(command))
  }

  lemma NormaliseIdempotent(command: string)
    ensures Normalise(Normalise(command)) == Normalise(command)
  {
    LowerTrim(Lower(command));
    LowerIdempotent(command);
    TrimIdempotent(Lower(command));
  }

  /** `CanOverrideCommand`: a name held by a core plugin may always be taken
      over; any other name only when it is not restricted. */
  predicate CanOverrideCommand(registered: map<string, RegisteredCommand>, name: string): (ok: bool)
    ensures !ok <==> name == "" && !(name in registered && registered[name].source.isCore)
  {
    if name !in registered || !registered[name].source.isCore then
      name !in RestrictedCommands
    else
      true
  }

  /** The registry invariant: every entry sits under its own command name,
      which is normalised and not restricted. */
  ghost predicate ValidTables(t: Tables) {
    forall k | k in t.registered ::
      t.registered[k].command == k && Normalise(k) == k && k !in RestrictedCommands
  }

  /** The original callback a new registration of `name` records: the one
      the previous plugin entry carried, else whatever the native table
      holds under the name (possibly a bridge), else none. */
  function CarriedOriginal(t: Tables, name: string): (r: Option<NativeCommand>)
    ensures r.None? <==>
      name !in t.native && (name !in t.registered || t.registered[name].originalCallback.None?)
    ensures name !in t.registered && name in t.native ==> r == Some(t.native[name])
  {
    if name in t.registered && t.registered[name].originalCallback.Some? then
      t.registered[name].originalCallback
    else if name in t.native then
      Some(t.native[name])
    else
      None
  }

  /** `RegisterCommand` on both tables. */
  function Register(t: Tables, command: string, plugin: Plugin, callback: Callback): (r: Result<Tables, Error>)
    ensures r.Failure? <==>
      Normalise(command) == "" &&
      !("" in t.registered && t.registered[""].source.isCore)
    ensures r.Failure? ==> r.error == CommandAlreadyExists(Normalise(command))
  {
    var name := Normalise(command);
    if !CanOverrideCommand(t.registered, name) then
      Failure(CommandAlreadyExists(name))
    else
      var entry := RegisteredCommand(plugin, name, callback, CarriedOriginal(t, name));
      Success(Tables(t.registered[name := entry], t.native[name := Bridge]))
  }

  /** Warnings logged by a successful `RegisterCommand`. */
  function RegisterWarnings(t: Tables, command: string): (n: nat)
    ensures n <= 1
  {
    var name := Normalise(command);
    if name in t.registered || name in t.native then 1 else 0
  }

  /** `UnregisterCommand` on both tables; `command` is used as given, not
      normalised. */
  function Unregister(t: Tables, command: string, plugin: Plugin): (r: Tables)
    ensures r.registered.Keys <= t.registered.Keys
    ensures command in r.registered ==> r == t
    ensures forall k | k in t.registered && k != command :: k in r.registered && r.registered[k] == t.registered[k]
  {
    if command in t.registered && t.registered[command].source == plugin then
      var cmd := t.registered[command];
      var native :=
        match cmd.originalCallback
        case Some(original) => t.native[cmd.command := original]
        case None => t.native - {cmd.command};
      Tables(t.registered - {command}, native)
    else
      t
  }

  /** `CommandCallback`: the result of the registered callback, or false when
      the name is not registered; `invoke` is the callbacks' behaviour. */
  function CommandCallback(registered: map<string, RegisteredCommand>, cmd: string, args: seq<string>,
                           invoke: (Callback, string, seq<string>) -> bool): (handled: bool)
    ensures cmd !in registered ==> !handled
  {
    cmd in registered && invoke(registered[cmd].callback, cmd, args)
  }

  /** The lookup of `HandleCommand`: whether a native invocation with this
      cmdLabel is forwarded to the plugin command handler. */
  predicate HandleCommandForwards(registered: map<string, RegisteredCommand>, cmdLabel: string): (b: bool)
    ensures Lower(cmdLabel) == cmdLabel ==> (b <==> cmdLabel in registered)
  {
    Lower(cmdLabel) in registered
  }

  // ---------------------------------------------------------------------
  // Properties of registration and unregistration

  /** A successful registration installs the plugin's entry and the bridge
      under the normalised name and changes no other key of either table. */
  lemma RegisterTouchesOnlyName(t: Tables, command: string, plugin: Plugin, callback: Callback)
    requires Register(t, command, plugin, callback).Success?
    ensures var t' := Register(t, command, plugin, callback).value;
      var name := Normalise(command);
      && t'.registered.Keys == t.registered.Keys + {name}
      && t'.native.Keys == t.native.Keys + {name}
      && t'.registered[name].source == plugin
      && t'.registered[name].callback == callback
      && t'.registered[name].command == name
      && t'.native[name] == Bridge
      && (forall k | k in t.registered && k != name :: t'.registered[k] == t.registered[k])
      && (forall k | k in t.native && k != name :: t'.native[k] == t.native[k])
  {
  }

  /** The first-override-wins rule for the original callback. */
  lemma OriginalCallbackRule(t: Tables, command: string, plugin: Plugin, callback: Callback)
    requires Register(t, command, plugin, callback).Success?
    ensures var name := Normalise(command);
      var original := Register(t, command, plugin, callback).value.registered[name].originalCallback;
      && (name in t.registered && t.registered[name].originalCallback.Some? ==>
            original == t.registered[name].originalCallback)
      && (!(name in t.registered && t.registered[name].originalCallback.Some?) && name in t.native ==>
            original == Some(t.native[name]))
      && (!(name in t.registered && t.registered[name].originalCallback.Some?) && name !in t.native ==>
            original == None)
  {
  }

  /** Registration keeps the registry invariant. */
  lemma RegisterPreservesValid(t: Tables, command: string, plugin: Plugin, callback: Callback)
    requires ValidTables(t)
    requires Register(t, command, plugin, callback).Success?
    ensures ValidTables(Register(t, command, plugin, callback).value)
  {
    NormaliseIdempotent(command);
  }

  /** On a valid registry only the empty name is ever refused, and a name
      that is already registered can always be registered again. */
  lemma RegisterOfRegisteredSucceeds(t: Tables, command: string, plugin: Plugin, callback: Callback)
    requires ValidTables(t)
    requires Normalise(command) in t.registered
    ensures Register(t, command, plugin, callback).Success?
  {
  }

  lemma UnregisterPreservesValid(t: Tables, command: string, plugin: Plugin)
    requires ValidTables(t)
    ensures ValidTables(Unregister(t, command, plugin))
  {
  }

  /** Unregistering a name that is absent, or owned by another plugin,
      changes nothing. */
  lemma UnregisterNoOp(t: Tables, command: string, plugin: Plugin)
    requires command !in t.registered || t.registered[command].source != plugin
    ensures Unregister(t, command, plugin) == t
  {
  }

  /** A successful unregistration removes the entry and puts the original
      callback back into the native table, or removes the native key. */
  lemma UnregisterEffect(t: Tables, command: string, plugin: Plugin)
    requires ValidTables(t)
    requires command in t.registered && t.registered[command].source == plugin
    ensures var t' := Unregister(t, command, plugin);
      var original := t.registered[command].originalCallback;
      && t'.registered == t.registered - {command}
      && (original.Some? ==> t'.native == t.native[command := original.value])
      && (original.None? ==> t'.native == t.native - {command})
  {
  }

  /** `UnregisterCommand` does not normalise its argument: on a valid
      registry a name that is not already normalised matches nothing. */
  lemma UnregisterRawNameMisses(t: Tables, command: string, plugin: Plugin)
    requires ValidTables(t)
    requires Normalise(command) != command
    ensures Unregister(t, command, plugin) == t
  {
  }

  /** Registering a name held by no plugin and then unregistering it by the
      same plugin restores both tables exactly, whether or not the engine
      had a native command under the name. */
  lemma RegisterUnregisterRestores(t: Tables, command: string, plugin: Plugin, callback: Callback)
    requires Normalise(command) !in t.registered
    requires Register(t, command, plugin, callback).Success?
    ensures Unregister(Register(t, command, plugin, callback).value, Normalise(command), plugin) == t
  {
    var name := Normalise(command);
    var t1 := Register(t, command, plugin, callback).value;
    var t2 := Unregister(t1, name, plugin);
    assert t2.registered == t.registered;
    if name in t.native {
      assert t2.native == t.native[name := t.native[name]];
    } else {
      assert t2.native == t.native;
    }
  }

  /** Two plugins override an engine command one after the other; when the
      second releases it the engine's own command is back and the first
      plugin's claim is gone: both tables are as before. */
  lemma SecondOverrideRestoresNative(t: Tables, name: string, a: Plugin, ca: Callback, b: Plugin, cb: Callback)
    requires Normalise(name) == name && name != ""
    requires name in t.native && name !in t.registered
    ensures Register(t, name, a, ca).Success?
    ensures var t1 := Register(t, name, a, ca).value;
      Register(t1, name, b, cb).Success? &&
      Unregister(Register(t1, name, b, cb).value, name, b) == t
  {
    var t1 := Register(t, name, a, ca).value;
    var t2 := Register(t1, name, b, cb).value;
    assert t2.registered[name].originalCallback == Some(t.native[name]);
    var t3 := Unregister(t2, name, b);
    assert t3.registered == t.registered;
    assert t3.native == t.native[name := t.native[name]];
  }

  /** Two plugins claim a name the engine does not have: the second captures
      the first one's bridge as its original callback, so when it releases
      the name the native table keeps a bridge that no plugin entry backs. */
  lemma SecondOverrideCapturesBridge(t: Tables, name: string, a: Plugin, ca: Callback, b: Plugin, cb: Callback)
    requires Normalise(name) == name && name != ""
    requires name !in t.native && name !in t.registered
    ensures Register(t, name, a, ca).Success?
    ensures var t1 := Register(t, name, a, ca).value;
      && Register(t1, name, b, cb).Success?
      && Register(t1, name, b, cb).value.registered[name].originalCallback == Some(Bridge)
      && var t3 := Unregister(Register(t1, name, b, cb).value, name, b);
         name !in t3.registered && t3.native == t.native[name := Bridge]
  {
    var t1 := Register(t, name, a, ca).value;
    var t2 := Register(t1, name, b, cb).value;
    var t3 := Unregister(t2, name, b);
    assert t3.registered == t.registered;
  }

  /** Once a second plugin has overridden a name, the first plugin no
      longer owns it and its unregistration is a no-op. */
  lemma OverriddenOwnerCannotUnregister(t: Tables, name: string, a: Plugin, ca: Callback, b: Plugin, cb: Callback)
    requires ValidTables(t)
    requires Register(t, name, a, ca).Success?
    requires a != b
    ensures var t1 := Register(t, name, a, ca).value;
      Register(t1, name, b, cb).Success? &&
      var t2 := Register(t1, name, b, cb).value;
      Unregister(t2, Normalise(name), a) == t2
  {
  }

  /** After a successful registration, dispatching the normalised name
      invokes exactly the new callback. */
  lemma DispatchAfterRegister(t: Tables, command: string, plugin: Plugin, callback: Callback,
                              args: seq<string>, invoke: (Callback, string, seq<string>) -> bool)
    requires Register(t, command, plugin, callback).Success?
    ensures var t' := Register(t, command, plugin, callback).value;
      CommandCallback(t'.registered, Normalise(command), args, invoke) == invoke(callback, Normalise(command), args)
  {
  }

  /** The native dispatcher forwards a cmdLabel whatever its letter case, as
      long as it lower-cases to a registered name. */
  lemma HandleCommandAfterRegister(t: Tables, command: string, plugin: Plugin, callback: Callback, cmdLabel: string)
    requires Register(t, command, plugin, callback).Success?
    requires Lower(cmdLabel) == Normalise(command)
    ensures HandleCommandForwards(Register(t, command, plugin, callback).value.registered, cmdLabel)
  {
  }

  // ---------------------------------------------------------------------
  // The registry object

  lemma RemoveThenSet<K, V>(m: map<K, V>, k: K, v: V)
    ensures (m - {k})[k := v] == m[k := v]
  {
    assert (m - {k})[k := v].Keys == m[k := v].Keys;
  }

  /** `HeatCommands`: the plugin table, the engine's native table that it
      writes to, and a count of the warnings logged. */
  class CommandSystem {
    var registeredCommands: map<string, RegisteredCommand>
    var nativeCommands: map<string, NativeCommand>
    ghost var warnings: nat

    function State(): Tables
      reads this
    {
      Tables(registeredCommands, nativeCommands)
    }

    ghost predicate Valid()
      reads this
    {
      ValidTables(State())
    }

    /** A command system over the engine's current native table. */
    constructor (native: map<string, NativeCommand>)
      ensures Valid()
      ensures registeredCommands == map[] && nativeCommands == native && warnings == 0
    {
      registeredCommands := map[];
      nativeCommands := native;
      warnings := 0;
    }

    method RegisterCommand(command: string, plugin: Plugin, callback: Callback) returns (error: Option<Error>)
      requires Valid()
      modifies this
      ensures Valid()
      ensures Register(old(State()), command, plugin, callback) ==
        if error.Some? then Failure(error.value) else Success(State())
      ensures warnings == old(warnings) + if error.Some? then 0 else RegisterWarnings(old(State()), command)
      ensures error.Some? ==> State() == old(State())
    {
      ghost var t := State();
      var name := Normalise(command);
      if !CanOverrideCommand(registeredCommands, name) {
        return Some(CommandAlreadyExists(name));
      }
      var original: Option<NativeCommand> := None;
      var cmd: Option<RegisteredCommand> := None;
      if name in registeredCommands {
        cmd := Some(registeredCommands[name]);
        if cmd.value.originalCallback.Some? {
          original := cmd.value.originalCallback;
        }
        warnings := warnings + 1;
      }
      if name in nativeCommands {
        if original.None? {
          original := Some(nativeCommands[name]);
        }
        nativeCommands := nativeCommands - {name};
        if cmd.None? {
          warnings := warnings + 1;
        }
      }
      assert original == CarriedOriginal(t, name);
      registeredCommands := registeredCommands[name := RegisteredCommand(plugin, name, callback, original)];
      nativeCommands := nativeCommands[name := Bridge];
      RemoveThenSet(t.native, name, Bridge);
      assert State() == Register(t, command, plugin, callback).value;
      assert warnings == old(warnings) + RegisterWarnings(t, command);
      error := None;
      RegisterPreservesValid(t, command, plugin, callback);
    }

    method UnregisterCommand(command: string, plugin: Plugin)
      requires Valid()
      modifies this
      ensures Valid()
      ensures State() == Unregister(old(State()), command, plugin)
      ensures warnings == old(warnings)
    {
      if command in registeredCommands {
        var cmd := registeredCommands[command];
        if plugin == cmd.source {
          registeredCommands := registeredCommands - {command};
          if cmd.originalCallback.Some? {
            nativeCommands := nativeCommands[cmd.command := cmd.originalCallback.value];
          } else {
            nativeCommands := nativeCommands - {cmd.command};
          }
        }
      }
    }
  }
}

# uMod.Heat core, modelled in Dafny

This project models the core of the uMod extension for the game Heat. It
covers three parts, described below.

**Command registry** (`commands.dfy`, module `Commands`). `HeatCommands`
keeps a table of commands registered by plugins. When a plugin claims a
name:

- the name is normalised: lower-cased, then trimmed;
- the empty name is refused, unless a core plugin already holds it;
- the new entry records an *original callback*. This is the original the
  previous plugin entry carried, else whatever the engine's native command
  table holds under the name, else nothing;
- the native table gets a *bridge* entry that routes the name back into the
  registry.

Unregistering is allowed only for the owning plugin. It puts the original
callback back into the native table, or removes the native key when there
is none.

The model has two layers:

- the pure functions `Register` and `Unregister`, on a `Tables` value
  holding both maps;
- the class `CommandSystem`, whose methods update the two maps the way the
  C# code does. Each method is proved to compute exactly the corresponding
  function.

A ghost counter records the warnings that registration logs.

**Command-line tokenizer and server-command entry** (`tokenizer.dfy`,
module `Tokenizer`, and `heat.dfy`, module `Heat`). `Heat.ParseCommand`
reads a line one character at a time. It keeps a buffer and an
"inside quotes" flag:

- a double quote toggles the flag; closing quotes also commit the buffer;
- white space outside quotes commits the buffer;
- a committed buffer is trimmed and dropped if it trims to nothing;
- every other character is appended to the buffer.

The specification is the left fold `Tokenizer.Scan`. The imperative
`Heat.ParseCommand` is proved against it through a loop invariant. The
main proved properties are:

- every token is non-empty, trimmed and free of quotes;
- tokenization loses and reorders no significant character, where a
  significant character is one that is neither white space nor a quote;
- a line yields no command exactly when it has no significant character;
- several concrete line shapes tokenize as stated.

`IOnServerCommand` strips every leading `/`, parses the rest and, when
there is a command, calls the `OnServerCommand` hook.

**The `Heat` plugin object** (`heat.dfy`, class `Heat.Heat`):

- The handler the plugin installs on `CommandManager.OnRegisterCommand`
  re-registers every plugin command whose name the engine registers
  natively. It is specified by the fold `Reapply`. Lemmas prove that:
  - every claimed name is bridged again;
  - owners and callbacks are kept;
  - everything else is left alone.
- The `serverInitialized` flag makes the set-up run once only, and decides
  whether `OnServerInitialized` is forwarded to a plugin that loads later.

**Player cache** (`players.dfy`, module `Players`). `HeatPlayerManager` has
three dictionaries: the persisted player records, every player seen, and
the connected players. The class `PlayerManager` keeps them as maps, plus
`order`, the enumeration order of the all-players dictionary. A .NET
`Dictionary` never loses a key here. A `Remove` followed by an `Add` of the
same key reuses the freed slot, so a key keeps its position once added.
The stored records come in as the loaded dictionary's entries, in its
enumeration order. `Initialize` adds the players in that order.

- The invariant `Valid` says two things:
  - the connected ids and the stored ids are all among the cached ids;
  - `order` lists each cached id exactly once.
- Every method keeps `Valid` and states its whole new state.
- `FindPlayers` is proved to return the matching players in enumeration
  order. A player matches when its name contains the query, ignoring
  letter case, or its id equals the query.
- `FindPlayer` returns a player exactly when one cached id matches.

Behaviour that follows from the code as written, and that the model keeps:

- `UnregisterCommand` looks the name up exactly as given, without
  normalising it. So a name with capitals or surrounding spaces never
  matches (`UnregisterRawNameMisses`).
- The `OnRegisterCommand` handler also looks each name and alias up exactly
  as given. An attribute name or alias that differs from the registered
  name in letter case or surrounding white space is not re-applied
  (`ReapplyRawNameMisses`).
- Suppose a name the engine does not have is claimed by two plugins in
  turn. The second plugin records the first plugin's *bridge* as its
  original callback. When it unregisters, the bridge is put back into the
  native table, although no plugin entry backs it any more
  (`SecondOverrideCapturesBridge`). When the engine did have the name,
  both tables come back exactly (`SecondOverrideRestoresNative`).
- `TrimStart('/')` removes every leading slash, not only one
  (`GrantExample`).
- The restricted set holds only the empty name. A restricted name is
  refused with `CommandAlreadyExistsException`; no separate
  restricted-name error exists.
- A name registered twice in the attribute's name and aliases is
  re-registered twice. The second time, the entry records the bridge as
  its original callback (`ReapplyRepeatedOriginal`).
- The re-apply handler drops the original callback an entry carried.
  The entry then records whatever the native table holds at that moment
  (`ReapplyOneEffect`).
- Every claimed name the handler re-registers while the native table still
  holds it logs the "previously registered" warning, including the bridge
  that the entry's own registration left there (`ReapplyWarnings`).
- The documentation comments of `FindPlayer` and `FindPlayers` promise
  wildcards. There is no wildcard syntax: `*` is an ordinary character
  (`StarIsNotAWildcard`).
- An empty query matches every player (`EmptyQueryMatchesAll`).

## Model

| member | source | states |
|---|---|---|
| Text.IsWhiteSpace | src/Heat.cs:191 | `char.IsWhiteSpace`: a white-space character is never a double quote, a slash, an upper-case letter or a digit |
| Text.LowerChar | src/HeatCommands.cs:97 | lower-casing keeps white space white space and leaves no upper-case ASCII letter |
| Text.Lower | src/HeatCommands.cs:97 | lower-casing keeps the length and maps each character on its own |
| Text.LowerIdempotent | src/HeatCommands.cs:97 | lower-casing twice is lower-casing once |
| Text.TrimStart | src/Heat.cs:177 | the result is no longer than the input and does not start with white space |
| Text.TrimEnd | src/Heat.cs:177 | the result is no longer than the input and does not end with white space |
| Text.Trim | src/Heat.cs:177 | the result is no longer than the input (its ends and its place in the input: `TrimIsTrimmed`, `TrimIsInnerSlice`) |
| Text.TrimStartIsSuffix | src/Heat.cs:177 | `TrimStart` keeps the suffix after a run of white space |
| Text.TrimEndIsPrefix | src/Heat.cs:177 | `TrimEnd` keeps the prefix before a run of white space |
| Text.TrimIsTrimmed | src/Heat.cs:177 | the result of `Trim` starts and ends with a non-white character or is empty |
| Text.TrimIsInnerSlice | src/Heat.cs:177 | `Trim` returns a slice of its input and drops only white space around it |
| Text.TrimIdempotent | src/HeatCommands.cs:97 | trimming twice is trimming once |
| Text.LowerTrim | src/HeatCommands.cs:97 | lower-casing and trimming commute |
| Text.TrimStartOf | src/Heat.cs:235 | `TrimStart('/')`: the result is no longer than the input and does not start with a slash |
| Text.TrimStartOfIsSuffix | src/Heat.cs:235 | `TrimStart('/')` drops exactly the leading run of slashes |
| Text.TrimStartOfPrefix | src/Heat.cs:235 | any number of leading slashes gives the same result as none |
| Text.ContainsIgnoreCase | src/HeatPlayerManager.cs:125 | `IndexOf(q, OrdinalIgnoreCase) >= 0`: the empty query is always found, and a found query is no longer than the string |
| Commands.Normalise | src/HeatCommands.cs:97 | normalising never lengthens the name |
| Commands.NormaliseIdempotent | src/HeatCommands.cs:97 | a normalised name normalises to itself |
| Commands.Register | src/HeatCommands.cs:94-146 | registration fails exactly when the name normalises to the empty name and no core plugin holds it, with `CommandAlreadyExists` of the normalised name |
| Commands.CanOverrideCommand | src/HeatCommands.cs:209-217 | a name is refused exactly when it is the restricted empty name and no core plugin holds it |
| Commands.CarriedOriginal | src/HeatCommands.cs:109-127 | there is no original exactly when the name is not native and its entry, if any, carries none; an unclaimed native name carries its native entry |
| Commands.RegisterWarnings | src/HeatCommands.cs:108-136 | a registration logs at most one warning, whether the name was held by a plugin, by the engine, or both |
| Commands.RegisterTouchesOnlyName | src/HeatCommands.cs:138-145 | a successful registration installs the plugin's entry and the bridge under the normalised name and changes no other key of either table |
| Commands.OriginalCallbackRule | src/HeatCommands.cs:109-127 | the original callback is the previous entry's original, else the native entry, else none |
| Commands.RegisterPreservesValid | src/HeatCommands.cs:94-146 | registration keeps every entry under its own normalised, unrestricted name |
| Commands.RegisterOfRegisteredSucceeds | src/HeatCommands.cs:209-217 | a name that is already registered can always be taken over |
| Commands.Unregister | src/HeatCommands.cs:165-186 | unregistration never adds a name, leaves every other entry as it was, and changes nothing when the entry stays |
| Commands.UnregisterPreservesValid | src/HeatCommands.cs:165-186 | unregistration keeps the registry invariant |
| Commands.UnregisterNoOp | src/HeatCommands.cs:167-170 | an absent name or another plugin's name is not unregistered |
| Commands.UnregisterEffect | src/HeatCommands.cs:170-183 | the owner's unregistration removes the entry and restores the original callback or removes the native key |
| Commands.UnregisterRawNameMisses | src/HeatCommands.cs:167 | a name that is not already normalised never matches an entry |
| Commands.RegisterUnregisterRestores | src/HeatCommands.cs:94-186 | registering an unclaimed name and unregistering it restores both tables |
| Commands.SecondOverrideRestoresNative | src/HeatCommands.cs:109-127 | two plugins overriding an engine command in turn: the second's unregistration restores both tables |
| Commands.SecondOverrideCapturesBridge | src/HeatCommands.cs:121-127 | two plugins claiming a name the engine lacks: the second keeps the bridge as its original and leaves it in the native table on unregistration |
| Commands.OverriddenOwnerCannotUnregister | src/HeatCommands.cs:170 | a plugin whose name was overridden by another can no longer unregister it |
| Commands.CommandCallback | src/HeatCommands.cs:79-82 | an unregistered name is not handled |
| Commands.DispatchAfterRegister | src/HeatCommands.cs:79-82 | after a registration, dispatching the name runs exactly the new callback |
| Commands.HandleCommandForwards | src/HeatCommands.cs:148-154 | a lower-case label is forwarded exactly when it is registered |
| Commands.HandleCommandAfterRegister | src/HeatCommands.cs:148-154 | the native handler forwards any label that lower-cases to a registered name |
| Commands.CommandSystem.constructor | src/HeatCommands.cs:72-77 | the registry starts empty, with the engine's native table as given |
| Commands.CommandSystem.RegisterCommand | src/HeatCommands.cs:94-146 | the imperative registration yields exactly `Register`'s tables or its error, keeps the invariant and counts its warnings; a refused registration leaves both tables unchanged |
| Commands.CommandSystem.UnregisterCommand | src/HeatCommands.cs:165-186 | the imperative unregistration yields exactly `Unregister`'s tables |
| Tokenizer.Commit | src/Heat.cs:177-181 | committing keeps the tokens found and adds at most one |
| Tokenizer.Step | src/Heat.cs:171-205 | one character keeps the tokens found and adds at most one; when it adds none the buffer may grow, otherwise the buffer is emptied |
| Tokenizer.Finish | src/Heat.cs:206-213 | the end of input keeps the tokens found and adds at most one, and none when the buffer is empty |
| Tokenizer.Scan | src/Heat.cs:171-205 | the loop as a left fold of `Step`; what it computes is stated by `ScanSnoc`, `ScanKeepsInvariant`, `ScanKeepsSignificant` and `TokensBound` |
| Tokenizer.Tokens | src/Heat.cs:166-213 | the tokens of a line; stated by `TokensWellFormed`, `TokensKeepSignificant`, `NoTokensIffBlank` and `TokensBound` |
| Tokenizer.ScanSnoc | src/Heat.cs:171-205 | the scan of a line extended by one character is one step of the loop |
| Tokenizer.TokensBound | src/Heat.cs:166-213 | each token and a pending buffer take at least one character, so a line has no more tokens than characters |
| Tokenizer.SignificantTrim | src/Heat.cs:177 | trimming a buffer loses no significant character |
| Tokenizer.CommitWellFormed | src/Heat.cs:177-181 | committing a quote-free buffer adds only well-formed tokens |
| Tokenizer.ScanKeepsInvariant | src/Heat.cs:171-205 | the buffer never holds a quote and every token found is well-formed |
| Tokenizer.TokensWellFormed | src/Heat.cs:166-213 | every token is non-empty, trimmed and free of double quotes |
| Tokenizer.ScanKeepsSignificant | src/Heat.cs:171-205 | tokens and buffer together hold the significant characters of the line read so far, in order |
| Tokenizer.TokensKeepSignificant | src/Heat.cs:166-213 | the tokens hold exactly the significant characters of the line, in order |
| Tokenizer.NoTokensIffBlank | src/Heat.cs:214-219 | no token exactly when the line has no significant character |
| Tokenizer.ScanAppendsToBuffer | src/Heat.cs:201-204 | characters that cannot end a token go to the buffer unchanged |
| Tokenizer.QuotedSegmentIsOneToken | src/Heat.cs:173-185 | a quoted segment after a token boundary becomes exactly one token |
| Tokenizer.UnterminatedQuoteCommits | src/Heat.cs:206-213 | text after a quote left open is still committed at the end |
| Tokenizer.SpaceEndsToken | src/Heat.cs:191-200 | white space outside quotes commits the pending buffer |
| Tokenizer.WordToken | src/Heat.cs:191-204 | a word after a token boundary fills the buffer, and a space after it commits it as one token |
| Tokenizer.LastWordToken | src/Heat.cs:206-213 | a word left in the buffer at the end of the line is committed as the last token |
| Tokenizer.QuotedArgumentLine | src/Heat.cs:166-224 | `a "b" c` tokenizes to `a`, trimmed `b`, `c` |
| Tokenizer.QuotedArgumentExample | src/Heat.cs:166-224 | `say "hello world" there` tokenizes to three tokens |
| Tokenizer.UnterminatedQuoteLine | src/Heat.cs:206-213 | `a b "c` tokenizes to `a`, `b`, trimmed `c` |
| Tokenizer.UnterminatedQuoteExample | src/Heat.cs:206-213 | `say unterminated "oops` tokenizes to three tokens |
| Tokenizer.QuoteJoinsLine | src/Heat.cs:186-189 | an opening quote does not end the word before it: `a"b"` is one token |
| Tokenizer.QuoteDoesNotFlushExample | src/Heat.cs:186-189 | `ab"cd ef"` is the single token `abcd ef` |
| Heat.ParseCommand | src/Heat.cs:166-224 | the command and arguments are both null exactly when the line has no significant character; otherwise they are the line's tokens |
| Heat.OnServerCommand | src/Heat.cs:227-245 | an empty or blank line calls no hook; otherwise the hook gets the tokens of the line without its leading slashes, and the line is handled exactly when the hook answers |
| Heat.TwoWordLine | src/Heat.cs:191-200 | two words separated by a space are two tokens |
| Heat.GrantExample | src/Heat.cs:235-236 | `grant admin` behind any number of slashes is the command `grant` with the argument `admin` |
| Heat.ReapplyOne | src/Heat.cs:36-40 | re-registering one name keeps the registry invariant and the set of claimed names |
| Heat.ReapplyRawNameMisses | src/Heat.cs:36 | a name or alias that is not already normalised is not re-applied: its turn changes nothing |
| Heat.Reapply | src/Heat.cs:34-41 | the handler keeps the registry invariant and the set of claimed names |
| Heat.ReapplyOneEffect | src/Heat.cs:36-40 | a claimed name keeps its owner and callback, records the current native entry as original, and is bridged again |
| Heat.ReapplyWarnings | src/Heat.cs:32-42 | the handler logs at most one warning per name it goes through |
| Heat.ReapplyWarningsUnclaimed | src/Heat.cs:36 | names no plugin claims log no warning |
| Heat.ReregisterWarnings | src/HeatCommands.cs:130-135 | re-registering a removed entry warns exactly when the native table still holds the name |
| Heat.Reregister | src/Heat.cs:38-39 | removing a claimed entry and registering it again under its owner, name and callback succeeds and bridges the name |
| Heat.ReapplyKeepsOwners | src/Heat.cs:32-42 | every entry keeps its owner, name and callback |
| Heat.ReapplyLeavesEntries | src/Heat.cs:32-42 | a name outside the attribute's names keeps its entry unchanged |
| Heat.ReapplyLeavesNatives | src/Heat.cs:32-42 | the native table changes only at claimed names among the attribute's names |
| Heat.ReapplyBridgesClaimed | src/Heat.cs:32-42 | every claimed name among the attribute's names is bridged |
| Heat.ReapplyFirstOriginal | src/Heat.cs:32-42 | a claimed name that occurs once records the native entry the engine had (or none) as its original |
| Heat.ReapplyRepeatedOriginal | src/Heat.cs:32-42 | a claimed name that occurs more than once records the bridge as its original |
| Heat.Heat.constructor | src/Heat.cs:25-57 | the plugin starts over the given command system with the server uninitialised |
| Heat.Heat.ReapplyName | src/Heat.cs:36-40 | one pass of the loop: the tables become `ReapplyOne`'s, and one warning is logged exactly when the name is claimed and the native table holds it |
| Heat.Heat.OnRegisterCommand | src/Heat.cs:32-42 | the handler's loop computes exactly `Reapply` over the name and its aliases, and logs exactly `ReapplyWarnings` warnings |
| Heat.Heat.OnServerInitialized | src/Heat.cs:94-129 | the set-up runs only when the flag is unset, and the flag is set afterwards |
| Heat.Heat.OnPluginLoaded | src/Heat.cs:81-85 | a loaded plugin gets `OnServerInitialized` exactly when the server is initialised |
| Players.Matches | src/HeatPlayerManager.cs:125 | the empty query and the player's own id always match |
| Players.Matching | src/HeatPlayerManager.cs:121-130 | the filter returns no more players than it is given |
| Players.MatchingMembers | src/HeatPlayerManager.cs:121-130 | a player is among the matching players exactly when it is among the players and matches the query |
| Players.MatchingOfAll | src/HeatPlayerManager.cs:121-130 | over the cached players in enumeration order, the filter finds exactly the cached players that match |
| Players.InOrder | src/HeatPlayerManager.cs:123 | the cached players in enumeration order, one per id |
| Players.MatchingCount | src/HeatPlayerManager.cs:110-114 | the number of matching players is the number of matching cached ids |
| Players.EmptyQueryMatchesAll | src/HeatPlayerManager.cs:125 | an empty query matches every player |
| Players.StarIsNotAWildcard | src/HeatPlayerManager.cs:125 | `b*` does not match the name `bob`: there are no wildcards |
| Players.PlayerManager.constructor | src/HeatPlayerManager.cs:24-26 | the manager starts with no records, no players and nothing connected |
| Players.PlayerManager.NewPlayer | src/HeatPlayer.cs:25-35 | a new player keeps the numeric id it is given and carries the sanitised name |
| Players.PlayerManager.All | src/HeatPlayerManager.cs:74 | all players, one per cached id |
| Players.RecordMap | src/HeatPlayerManager.cs:31 | the loaded dictionary holds exactly the keys of its entries |
| Players.RecordMapAt | src/HeatPlayerManager.cs:31 | with no key twice, each entry's record is the one the dictionary holds under its key |
| Players.PlayerManager.LoadPlayers | src/HeatPlayerManager.cs:35-38 | the loop adds one player per stored entry, built from its record, listing the keys in the entries' order |
| Players.PlayerManager.Initialize | src/HeatPlayerManager.cs:29-39 | the records are the loaded dictionary, the cache holds one player per record, built from it, in the records' enumeration order, and none is connected |
| Players.PlayerManager.PlayerJoin | src/HeatPlayerManager.cs:41-56 | a known id gets its stored name updated and a fresh player in its place; a new id gets a record and a player, or the duplicate-key error when it is already cached |
| Players.PlayerManager.PlayerConnected | src/HeatPlayerManager.cs:58-62 | the player is cached afresh and marked connected |
| Players.PlayerManager.PlayerDisconnected | src/HeatPlayerManager.cs:64 | only the connected set loses the player |
| Players.PlayerManager.FindPlayerById | src/HeatPlayerManager.cs:93-96 | the cached player under the id, or none exactly when the id is not cached |
| Players.PlayerManager.FindPlayers | src/HeatPlayerManager.cs:121-130 | the matching players in enumeration order: every matching cached player and nothing else |
| Players.PlayerManager.FindPlayer | src/HeatPlayerManager.cs:110-114 | a player exactly when one cached id matches, and that player matches |

## Left out

- Lower-casing maps only `A`..`Z`. `ToLowerInvariant` and
  `OrdinalIgnoreCase` also fold non-ASCII letters; this model does not.
- Null plugins, null command names and null player names are not modelled.
  Neither is the `?? "an unknown plugin"` fallback in the warning text.
- Warning texts and logging are left out. Only the number of warnings is
  kept.
- The reflection that builds the bridge `CommandAttribute` is left out.
  Every bridge is the single value `Bridge`.
- `CommandHandler`, `HandleChatMessage` and the chat-command parsing
  behind them are not part of this model. `HandleCommand` is modelled
  only as its lookup, `HandleCommandForwards`.
- Callbacks and hook subscribers are foreign code. Their answers are
  function parameters, and exceptions they throw are not modelled.
- The rest of `IOnServerCommand` after the `OnServerCommand` hook is
  commented out in the source. The model returns "not handled" there, as
  the code does. The caller id is unused.
- In `OnServerInitialized`, the permission-group set-up, the Steam id
  validator and the analytics call are reduced to the ghost counter
  `setupRuns`. So is the broadcast of the hook.
- Persistence is not modelled. `ProtoStorage.Load` becomes the
  `Initialize` parameter: the loaded dictionary's entries in enumeration
  order, with no key twice. `SavePlayerData` is left out.
- `string.Sanitize` is a parameter of the player cache.
- `FindPlayerByObj` and the `All`, `Connected` and `Sleeping` enumerations
  are left out, except `All` as the enumeration `FindPlayers` uses.
- The engine `Player` object kept by `HeatPlayer` is left out.
- `HeatPlayer`, `HeatServer`, `HeatHooks`, `HeatProvider` and the
  extension loader are not part of this model.
- Concurrency is not modelled; the registry is used from one thread.
- Players.PlayerManager.Initialize, Players.PlayerManager.PlayerJoin and
  Players.PlayerManager.PlayerConnected require ids made of decimal
  digits below 2^64. `ulong.Parse` would throw on other ids, and it also
  accepts surrounding white space and a sign, which the model does not.
- Players.PlayerManager.PlayerJoin reports the duplicate-key
  `ArgumentException` of `allPlayers.Add` as an error result. The stored
  record is already added when it happens, as in the code.
- Commands.CommandCallback states only that an unregistered name is not
  handled. A registered name gives whatever the callback returns.
- Commands.CommandCallback drops the `caller` argument the C# callback
  receives. The oracle `invoke` answers from the callback, the name and the
  arguments only, so callbacks that depend on who called are not told apart.

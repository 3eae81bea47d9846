/** The player cache of `HeatPlayerManager`: the persisted records, every
    player ever seen, and the connected players, updated when a player
    joins, connects and disconnects, plus the lookups over them. */
module Players {
  import opened Wrappers
  import opened Text

  /** `HeatPlayer` reduced to what the cache keeps: its id and its
      sanitised name. */
  datatype Player = Player(id: string, name: string)

  /** The persisted `PlayerRecord`. */
  datatype PlayerRecord = PlayerRecord(name: string, id: string)

  /** `allPlayers.Add` on a key that is already present. */
  datatype JoinError = DuplicateKey(id: string)

  predicate IsDigit(c: char) {
    '0' <= c <= '9'
  }

  function DigitsValue(s: string): nat
    requires forall k :: 0 <= k < |s| ==> IsDigit(s[k])
  {
    if s == [] then 0
    else
      assert IsDigit(s[|s| - 1]);
      10 * DigitsValue(s[..|s| - 1]) + (s[|s| - 1] as int - '0' as int)
  }

  /** An id that `ulong.Parse` accepts as plain decimal digits. */
  predicate IsPlayerId(s: string) {
    && |s| > 0
    && (forall k :: 0 <= k < |s| ==> IsDigit(s[k]))
    && DigitsValue(s) < 0x1_0000_0000_0000_0000
  }

  /** The `FindPlayers` test: the name contains the query ignoring case, or
      the id equals it. There is no wildcard syntax. */
  predicate Matches(p: Player, query: string): (b: bool)
    ensures query == [] || query == p.id ==> b
  {
    ContainsIgnoreCase(p.name, query) || p.id == query
  }

  /** The players of `ps` that match, in their order. */
  function Matching(ps: seq<Player>, query: string): (r: seq<Player>)
    ensures |r| <= |ps|
  {
    if ps == [] then []
    else Matching(ps[..|ps| - 1], query) + if Matches(ps[|ps| - 1], query) then [ps[|ps| - 1]] else []
  }

  /** The players kept are exactly the players of `ps` that match. */
  lemma {:induction false} MatchingMembers(ps: seq<Player>, query: string)
    ensures forall p :: p in Matching(ps, query) <==> p in ps && Matches(p, query)
  {
    if ps != [] {
      MatchingMembers(ps[..|ps| - 1], query);
      assert ps == ps[..|ps| - 1] + [ps[|ps| - 1]];
    }
  }

  /** `order` lists each key of `keys` exactly once: it holds only keys, no
      key twice, and every key at the index `position` gives for it. */
  ghost predicate Lists(order: seq<string>, position: map<string, nat>, keys: set<string>) {
    && (forall i | 0 <= i < |order| :: order[i] in keys)
    && (forall i, j | 0 <= i < j < |order| :: order[i] != order[j])
    && (forall k | k in keys :: k in position && position[k] < |order| && order[position[k]] == k)
  }

  /** The values of `m` in the order of `order`. */
  function InOrder(order: seq<string>, m: map<string, Player>): (r: seq<Player>)
    requires forall i | 0 <= i < |order| :: order[i] in m
    ensures |r| == |order|
    ensures forall i | 0 <= i < |order| :: r[i] == m[order[i]]
  {
    if order == [] then []
    else InOrder(order[..|order| - 1], m) + [m[order[|order| - 1]]]
  }

  lemma MatchingSnoc(ps: seq<Player>, p: Player, query: string)
    ensures Matching(ps + [p], query) == Matching(ps, query) + if Matches(p, query) then [p] else []
  {
    assert (ps + [p])[..|ps|] == ps;
  }

  lemma InOrderSnoc(order: seq<string>, k: string, m: map<string, Player>)
    requires forall i | 0 <= i < |order| :: order[i] in m
    requires k in m
    ensures InOrder(order + [k], m) == InOrder(order, m) + [m[k]]
  {
    assert (order + [k])[..|order|] == order;
  }

  /** One more key of the enumeration: its player is kept if it matches. */
  lemma MatchingStep(order: seq<string>, i: nat, m: map<string, Player>, query: string)
    requires i < |order|
    requires forall j | 0 <= j < |order| :: order[j] in m
    ensures Matching(InOrder(order[..i + 1], m), query) ==
      Matching(InOrder(order[..i], m), query) + if Matches(m[order[i]], query) then [m[order[i]]] else []
  {
    assert order[..i + 1] == order[..i] + [order[i]];
    InOrderSnoc(order[..i], order[i], m);
    MatchingSnoc(InOrder(order[..i], m), m[order[i]], query);
  }

  /** Every cached player that matches is found, and only those. */
  lemma MatchingOfAll(order: seq<string>, position: map<string, nat>, m: map<string, Player>, query: string)
    requires Lists(order, position, m.Keys)
    ensures forall p :: p in Matching(InOrder(order, m), query) ==> p in m.Values && Matches(p, query)
    ensures forall k | k in m && Matches(m[k], query) :: m[k] in Matching(InOrder(order, m), query)
  {
    var ps := InOrder(order, m);
    MatchingMembers(ps, query);
    ListsCovers(order, position, m.Keys);
    forall p | p in ps ensures p in m.Values {
      var i :| 0 <= i < |ps| && ps[i] == p;
      assert m[order[i]] == p;
    }
    forall k | k in m ensures m[k] in ps {
      assert ps[position[k]] == m[k];
    }
  }

  /** The keys whose players match. */
  function MatchingKeys(m: map<string, Player>, query: string): set<string> {
    set k | k in m && Matches(m[k], query)
  }

  lemma {:induction false} MatchingCount(order: seq<string>, m: map<string, Player>, query: string)
    requires forall i | 0 <= i < |order| :: order[i] in m
    requires forall i, j | 0 <= i < j < |order| :: order[i] != order[j]
    ensures |Matching(InOrder(order, m), query)| == |MatchingIn(order, m, query)|
  {
    if order != [] {
      var init, last := order[..|order| - 1], order[|order| - 1];
      MatchingCount(init, m, query);
      var ps := InOrder(order, m);
      assert ps[..|ps| - 1] == InOrder(init, m);
      assert |Matching(ps, query)| ==
        |Matching(InOrder(init, m), query)| + if Matches(m[last], query) then 1 else 0;
      assert last !in init by {
        forall i | 0 <= i < |init| ensures init[i] != last {
          assert order[i] == init[i];
        }
      }
      assert order == init + [last];
      MatchingInSnoc(init, last, m, query);
    }
  }

  /** The keys of `order` whose players match. */
  ghost function MatchingIn(order: seq<string>, m: map<string, Player>, query: string): set<string>
    requires forall i | 0 <= i < |order| :: order[i] in m
  {
    set k | k in order && Matches(m[k], query)
  }

  lemma MatchingInSnoc(init: seq<string>, last: string, m: map<string, Player>, query: string)
    requires forall i | 0 <= i < |init| :: init[i] in m
    requires last in m && last !in init
    ensures |MatchingIn(init + [last], m, query)| ==
      |MatchingIn(init, m, query)| + if Matches(m[last], query) then 1 else 0
  {
    var order := init + [last];
    if Matches(m[last], query) {
      assert MatchingIn(order, m, query) == MatchingIn(init, m, query) + {last};
    } else {
      assert MatchingIn(order, m, query) == MatchingIn(init, m, query);
    }
  }

  /** An empty query matches every player: `IndexOf("")` is 0. */
  lemma {:induction false} EmptyQueryMatchesAll(ps: seq<Player>)
    ensures Matching(ps, "") == ps
  {
    if ps != [] {
      EmptyQueryMatchesAll(ps[..|ps| - 1]);
      assert ps == ps[..|ps| - 1] + [ps[|ps| - 1]];
    }
  }

  /** A star is an ordinary character, not a wildcard. */
  lemma StarIsNotAWildcard(p: Player)
    requires p.id != "b*"
    requires p.name == "bob"
    ensures !Matches(p, "b*")
  {
    forall i: nat | i + 2 <= 3 ensures !MatchesAt("bob", "b*", i) {
      assert Lower("b*")[1] == '*';
      assert Lower("bob"[i..i + 2])[1] != '*';
    }
  }

  // ---------------------------------------------------------------------
  // The stored records

  /** The stored dictionary as its entries in enumeration order, or none
      when nothing was stored. */
  function Stored(loaded: Option<seq<(string, PlayerRecord)>>): seq<(string, PlayerRecord)> {
    if loaded.Some? then loaded.value else []
  }

  /** The keys of the entries, in their order. */
  function KeysOf(entries: seq<(string, PlayerRecord)>): (ks: seq<string>)
    ensures |ks| == |entries|
    ensures forall i | 0 <= i < |entries| :: ks[i] == entries[i].0
  {
    seq(|entries|, i requires 0 <= i < |entries| => entries[i].0)
  }

  /** A dictionary holds no key twice. */
  predicate DistinctKeys(entries: seq<(string, PlayerRecord)>) {
    forall i, j | 0 <= i < j < |entries| :: entries[i].0 != entries[j].0
  }

  /** The dictionary the entries make up. */
  function RecordMap(entries: seq<(string, PlayerRecord)>): (m: map<string, PlayerRecord>)
    ensures forall k :: k in m <==> k in KeysOf(entries)
  {
    if entries == [] then map[]
    else
      var last := entries[|entries| - 1];
      assert KeysOf(entries) == KeysOf(entries[..|entries| - 1]) + [last.0];
      RecordMap(entries[..|entries| - 1])[last.0 := last.1]
  }

  /** With no key twice, each entry's record is the one under its key. */
  lemma {:induction false} RecordMapAt(entries: seq<(string, PlayerRecord)>, i: nat)
    requires DistinctKeys(entries) && i < |entries|
    ensures entries[i].0 in RecordMap(entries)
    ensures RecordMap(entries)[entries[i].0] == entries[i].1
  {
    if i < |entries| - 1 {
      var init := entries[..|entries| - 1];
      assert DistinctKeys(init) by {
        forall a, b | 0 <= a < b < |init| ensures init[a].0 != init[b].0 {
          assert init[a] == entries[a] && init[b] == entries[b];
        }
      }
      assert init[i] == entries[i];
      RecordMapAt(init, i);
    }
  }

  /** Listing the next entry's key keeps the listing exact. */
  lemma ListStep(entries: seq<(string, PlayerRecord)>, i: nat, keys: seq<string>,
                 position: map<string, nat>, listed: set<string>)
    requires DistinctKeys(entries) && i < |entries|
    requires keys == KeysOf(entries)[..i] && Lists(keys, position, listed)
    ensures keys + [entries[i].0] == KeysOf(entries)[..i + 1]
    ensures Lists(keys + [entries[i].0], position[entries[i].0 := |keys|], listed + {entries[i].0})
  {
    NotYetListed(entries, i, keys, position, listed);
    ListsSnoc(keys, position, listed, entries[i].0);
  }

  /** Once every entry is listed, the listed keys are the dictionary's. */
  lemma ListsAll(entries: seq<(string, PlayerRecord)>, keys: seq<string>,
                 position: map<string, nat>, listed: set<string>)
    requires keys == KeysOf(entries) && Lists(keys, position, listed)
    ensures listed == RecordMap(entries).Keys
  {
    forall k | k in RecordMap(entries)
      ensures k in listed
    {
      var j :| 0 <= j < |keys| && keys[j] == k;
    }
    forall k | k in listed
      ensures k in RecordMap(entries)
    {
      assert keys[position[k]] == k;
    }
  }

  /** The next entry's key is not among the keys listed so far. */
  lemma NotYetListed(entries: seq<(string, PlayerRecord)>, i: nat, keys: seq<string>,
                     position: map<string, nat>, listed: set<string>)
    requires DistinctKeys(entries) && i < |entries|
    requires keys == KeysOf(entries)[..i] && Lists(keys, position, listed)
    ensures entries[i].0 !in listed
  {
    forall k | k in listed
      ensures k != entries[i].0
    {
      var j := position[k];
      assert k == keys[j] == entries[j].0;
    }
  }

  // ---------------------------------------------------------------------
  // The cache object

  class PlayerManager {
    /** `string.Sanitize()`, supplied by the host. */
    const sanitize: string -> string
    var playerData: map<string, PlayerRecord>
    var allPlayers: map<string, Player>
    /** The enumeration order of `allPlayers`: entries are never removed
        from it, and a remove followed by an add of the same key reuses
        the freed slot, so a key keeps its place once added. */
    var order: seq<string>
    /** Where each cached id sits in `order`. */
    ghost var position: map<string, nat>
    var connectedPlayers: map<string, Player>

    ghost predicate Valid()
      reads this
    {
      && connectedPlayers.Keys <= allPlayers.Keys
      && playerData.Keys <= allPlayers.Keys
      && Lists(order, position, allPlayers.Keys)
    }

    constructor (sanitize: string -> string)
      ensures Valid()
      ensures this.sanitize == sanitize
      ensures playerData == map[] && allPlayers == map[] && connectedPlayers == map[] && order == []
    {
      this.sanitize := sanitize;
      playerData := map[];
      allPlayers := map[];
      connectedPlayers := map[];
      order := [];
      position := map[];
    }

    /** `new HeatPlayer(id, name)`. */
    function NewPlayer(id: string, name: string): (p: Player)
      requires IsPlayerId(id)
      ensures p.id == id && IsPlayerId(p.id)
      ensures p.name == sanitize(name)
    {
      Player(id, sanitize(name))
    }

    /** All players in enumeration order. */
    function All(): (ps: seq<Player>)
      reads this
      requires Valid()
      ensures |ps| == |allPlayers|
    {
      assert |order| == |allPlayers.Keys| by {
        ListsCardinality(order, position, allPlayers.Keys);
      }
      InOrder(order, allPlayers)
    }

    /** The loop of `Initialize`: one new player per stored entry, added in
        the entries' order. */
    method LoadPlayers(entries: seq<(string, PlayerRecord)>)
      returns (players: map<string, Player>, keys: seq<string>, ghost at: map<string, nat>)
      requires DistinctKeys(entries)
      requires forall i | 0 <= i < |entries| :: IsPlayerId(entries[i].1.id)
      ensures keys == KeysOf(entries)
      ensures Lists(keys, at, players.Keys)
      ensures players.Keys == RecordMap(entries).Keys
      ensures forall k | k in players ::
        players[k] == Player(RecordMap(entries)[k].id, sanitize(RecordMap(entries)[k].name))
    {
      ghost var data := RecordMap(entries);
      players, keys, at := map[], [], map[];
      for i := 0 to |entries|
        invariant keys == KeysOf(entries)[..i]
        invariant Lists(keys, at, players.Keys)
        invariant forall k | k in players :: k in data && players[k] == Player(data[k].id, sanitize(data[k].name))
      {
        var key, record := entries[i].0, entries[i].1;
        RecordMapAt(entries, i);
        ListStep(entries, i, keys, at, players.Keys);
        players := players[key := NewPlayer(record.id, record.name)];
        at := at[key := |keys|];
        keys := keys + [key];
      }
      assert KeysOf(entries)[..|entries|] == KeysOf(entries);
      ListsAll(entries, keys, at, players.Keys);
    }

    /** `Initialize`, with the stored dictionary passed in as its entries in
        enumeration order (`None` when nothing was stored): `allPlayers` is
        filled in that order. */
    method Initialize(loaded: Option<seq<(string, PlayerRecord)>>)
      requires DistinctKeys(Stored(loaded))
      requires forall i | 0 <= i < |Stored(loaded)| :: IsPlayerId(Stored(loaded)[i].1.id)
      modifies this
      ensures Valid()
      ensures playerData == RecordMap(Stored(loaded))
      ensures order == KeysOf(Stored(loaded))
      ensures allPlayers.Keys == playerData.Keys
      ensures forall k | k in allPlayers ::
        allPlayers[k] == Player(playerData[k].id, sanitize(playerData[k].name))
      ensures connectedPlayers == map[]
    {
      var entries := Stored(loaded);
      var players, keys, at := LoadPlayers(entries);
      playerData := RecordMap(entries);
      allPlayers := players;
      order := keys;
      position := at;
      connectedPlayers := map[];
    }

    /** `PlayerJoin`: updates the stored name of a known player, or records
        a new one; `allPlayers.Add` fails when the id is new to the records
        but already cached, after the record has been stored. */
    method PlayerJoin(playerId: string, playerName: string) returns (error: Option<JoinError>)
      requires Valid()
      requires IsPlayerId(playerId)
      modifies this
      ensures Valid()
      ensures playerId in old(playerData) ==>
        playerData == old(playerData)[playerId := old(playerData)[playerId].(name := playerName)]
      ensures playerId !in old(playerData) ==>
        playerData == old(playerData)[playerId := PlayerRecord(playerName, playerId)]
      ensures error.Some? <==> playerId !in old(playerData) && playerId in old(allPlayers)
      ensures error.None? ==> allPlayers == old(allPlayers)[playerId := NewPlayer(playerId, playerName)]
      ensures error.Some? ==> allPlayers == old(allPlayers)
      ensures order == if playerId in old(allPlayers) then old(order) else old(order) + [playerId]
      ensures connectedPlayers == old(connectedPlayers)
    {
      if playerId in playerData {
        var record := playerData[playerId];
        record := record.(name := playerName);
        playerData := playerData[playerId := record];
        allPlayers := allPlayers - {playerId};
        allPlayers := allPlayers[playerId := NewPlayer(playerId, playerName)];
        error := None;
      } else {
        var record := PlayerRecord(playerName, playerId);
        playerData := playerData[playerId := record];
        if playerId in allPlayers {
          return Some(DuplicateKey(playerId));
        }
        ListsSnoc(order, position, allPlayers.Keys, playerId);
        allPlayers := allPlayers[playerId := NewPlayer(playerId, playerName)];
        position := position[playerId := |order|];
        order := order + [playerId];
        error := None;
      }
    }

    /** `PlayerConnected`: caches the player afresh and marks it connected. */
    method PlayerConnected(playerId: string, playerName: string)
      requires Valid()
      requires IsPlayerId(playerId)
      modifies this
      ensures Valid()
      ensures allPlayers == old(allPlayers)[playerId := NewPlayer(playerId, playerName)]
      ensures connectedPlayers == old(connectedPlayers)[playerId := NewPlayer(playerId, playerName)]
      ensures order == if playerId in old(allPlayers) then old(order) else old(order) + [playerId]
      ensures playerData == old(playerData)
    {
      if playerId !in allPlayers {
        ListsSnoc(order, position, allPlayers.Keys, playerId);
        position := position[playerId := |order|];
        order := order + [playerId];
      }
      allPlayers := allPlayers[playerId := NewPlayer(playerId, playerName)];
      connectedPlayers := connectedPlayers[playerId := NewPlayer(playerId, playerName)];
    }

    /** `PlayerDisconnected`: only the connected set loses the player. */
    method PlayerDisconnected(playerId: string)
      requires Valid()
      modifies this
      ensures Valid()
      ensures connectedPlayers == old(connectedPlayers) - {playerId}
      ensures allPlayers == old(allPlayers) && playerData == old(playerData) && order == old(order)
    {
      connectedPlayers := connectedPlayers - {playerId};
    }

    /** `FindPlayerById`. */
    function FindPlayerById(id: string): (r: Option<Player>)
      reads this
      ensures r.Some? <==> id in allPlayers
      ensures r.Some? ==> r.value == allPlayers[id]
    {
      if id in allPlayers then Some(allPlayers[id]) else None
    }

    /** `FindPlayers`: the matching players, in enumeration order. */
    method FindPlayers(partialNameOrId: string) returns (players: seq<Player>)
      requires Valid()
      ensures players == Matching(All(), partialNameOrId)
      ensures forall p :: p in players ==> p in allPlayers.Values && Matches(p, partialNameOrId)
      ensures forall k | k in allPlayers && Matches(allPlayers[k], partialNameOrId) :: allPlayers[k] in players
    {
      players := [];
      for i := 0 to |order|
        invariant players == Matching(InOrder(order[..i], allPlayers), partialNameOrId)
      {
        var player := allPlayers[order[i]];
        MatchingStep(order, i, allPlayers, partialNameOrId);
        if Matches(player, partialNameOrId) {
          players := players + [player];
        }
      }
      assert order[..|order|] == order;
      MatchingOfAll(order, position, allPlayers, partialNameOrId);
    }

    /** `FindPlayer`: a player when exactly one matches, else none. */
    method FindPlayer(partialNameOrId: string) returns (r: Option<Player>)
      requires Valid()
      ensures r.Some? <==> |MatchingKeys(allPlayers, partialNameOrId)| == 1
      ensures r.Some? ==> r.value in allPlayers.Values && Matches(r.value, partialNameOrId)
    {
      var players := FindPlayers(partialNameOrId);
      MatchingCount(order, allPlayers, partialNameOrId);
      ListsCovers(order, position, allPlayers.Keys);
      assert MatchingIn(order, allPlayers, partialNameOrId) == MatchingKeys(allPlayers, partialNameOrId);
      r := if |players| == 1 then Some(players[0]) else None;
    }
  }

  /** Appending a new key to the listing lists the enlarged key set. */
  lemma ListsSnoc(order: seq<string>, position: map<string, nat>, keys: set<string>, k: string)
    requires Lists(order, position, keys) && k !in keys
    ensures Lists(order + [k], position[k := |order|], keys + {k})
  {
  }

  /** Every key is listed. */
  lemma ListsCovers(order: seq<string>, position: map<string, nat>, keys: set<string>)
    requires Lists(order, position, keys)
    ensures forall k | k in keys :: k in order
  {
    forall k | k in keys ensures k in order {
      assert order[position[k]] == k;
    }
  }

  /** A listing has one entry per key. */
  lemma ListsCardinality(order: seq<string>, position: map<string, nat>, keys: set<string>)
    requires Lists(order, position, keys)
    ensures |order| == |keys|
  {
    var listed := set i | 0 <= i < |order| :: order[i];
    ListsCovers(order, position, keys);
    assert listed == keys;
    DistinctCardinality(order);
  }

  lemma {:induction false} DistinctCardinality(order: seq<string>)
    requires forall i, j | 0 <= i < j < |order| :: order[i] != order[j]
    ensures |set i | 0 <= i < |order| :: order[i]| == |order|
  {
    if order != [] {
      var init := order[..|order| - 1];
      DistinctCardinality(init);
      var s := set i | 0 <= i < |order| :: order[i];
      var s' := set i | 0 <= i < |init| :: init[i];
      assert s == s' + {order[|order| - 1]};
      assert order[|order| - 1] !in s';
    }
  }
}

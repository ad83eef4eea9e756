# TagJam18 level core in Dafny

A model of the deterministic core of TagJam18, a small tile-based tagging
game written in C#, with proofs about it. The core has four parts:

- **The keyed resource pool** (`ResourcePool`). It maps a string id to a
  reference-counted entry that observes its object through a weak reference.
  `Get` creates, shares or resurrects an entry. `Drop` checks the id/object
  pairing and disposes the object at count zero. `Dispose` force-disposes
  every live entry.
- **The entity registry** of the game (`TagGame.EntityManagement`). It keeps
  the render-ordered entity list and the current Player. Additions and
  removals requested while the list is protected are queued, and they are
  applied first to last when the outermost protection ends.
- **Level loading** (`Level`). This covers:
  - the header checks;
  - the grid of static tile entities with its bounds-safe lookup;
  - the CSV tile layer parsed with `Convert.ToInt32`;
  - the id-to-constructor registry built from `TilesetConstructorAttribute`s;
  - `MakeEntity`;
  - the adjacency pass over every registered entity;
  - the ground-decal loop.
- **The adjacency resolvers of the tile entities.**
  - A Door attaches to one side by a fixed priority.
  - A Wall derives its connection and draw flags.
  - A TaggingLocation absorbs neighbouring single-tile locations along its
    long axis, then picks the wall it faces.

Modules, in dependency order:

| module | file | contents |
|---|---|---|
| `Wrappers` | wrappers.dfy | `Option`, `Result`, `Outcome` |
| `TilesetConstructor` | tileset_constructor.dfy | the attribute and its validating constructor |
| `Adjacency` | adjacency.dfy | the pure decision rules of the three resolvers |
| `PoolModel` | pool_model.dfy | the pool as values: one function per operation, plus the lemmas about series of requests |
| `ResourcePool` | resource_pool.dfy | the classes `PoolValue` and `ResourcePool`, proved to follow `PoolModel` |
| `EntityManagement` | entity_management.dfy | the registry's specification functions and lemmas, and the class `EntityRegistry` |
| `LevelFormat` | level_format.dfy | `Convert.ToInt32`, splitting, the CSV tokens and placements, the header checks, the constructor registry, the decal rule |
| `World` | world.dfy | the classes `Level`, `Wall`, `Door` and `TaggingLocation` (one module, because they refer to each other), plus `LoadLevel` |

Each imperative operation is proved against a specification:

- A resolver's `ensures` ties its fields to a rule of `Adjacency` applied to
  the grid.
- `ProcessCsv` is tied to `Placements` of the layer's tokens. On success
  it also states what those calls did: every cell has the kind
  `PlacedKind` gives it, the made entities have the declared kinds of the
  registered placements, every registered placement's constructor took
  the level, and the registry had them added in order.
- The level's grid invariant (`Level.Coherent`) pins every wall and door
  in the grid to its own cell, so resolving a listed wall or door
  resolves the cell that holds it (`Level.ResolvedAt`).
- The `ResourcePool` methods are tied to `PoolModel`.
- The registry methods are tied to `AddNow`, `RemoveNow`, `ApplyAll` and
  `Request`.

The properties the source promises are lemmas about those functions, or
invariants the methods keep:

- `PoolInv`: every entry's count is non-negative, and a disposed entry has
  count 0.
- `EntityRegistry.Valid`: at depth 0 the queue is empty, the list is sorted,
  and the Player is listed.
- `Level.Valid`: every cell holding a tagging location lies inside that
  location's extent.

Failures are values. An exception or a reachable `Debug.Assert` becomes
`Failure`/`Fail` with its own error constructor. A `Debug.Assert` that the
invariants show can never fire becomes a `requires` that every caller
discharges.

Where the specification and the code disagree, the model follows the code:

- The code has no double-door detection.
- A TaggingLocation picks its wall by its own rule, not the door's priority.
- After the last `Drop` the code makes `Reference` return null through
  `wasDisposed`.
- The code's leak "logging" is only `Debug.Print`.

## Model

| member | source | states |
|---|---|---|
| TilesetConstructor.New | TagJam18/TilesetConstructorAttribute.cs:8-14 | fails exactly for ids below 1; otherwise the attribute holds the id unchanged, and its type guarantees Id >= 1 from then on |
| Adjacency.DoorSide | TagJam18/Entities/Door.cs:39-55 | the side chosen, as an if-and-only-if per side: left if the left neighbour is a wall, else right, else up, else down; left when no neighbour is a wall |
| Adjacency.WallFlagsFor | TagJam18/Entities/Wall.cs:51-103 | each connection flag is its neighbour's test; the horizontal segment is drawn iff left or right connects, the vertical iff top or bottom; a pillar is drawn iff nothing connects |
| Adjacency.Extent.IsHorizontal | TagJam18/Entities/TaggingLocation.cs:29-32 | every location is horizontal or vertical, and both exactly when it is square |
| Adjacency.Extent.IsVertical | TagJam18/Entities/TaggingLocation.cs:34-37 | a column one tile wide is vertical |
| Adjacency.NeighbourCell | TagJam18/Entities/TaggingLocation.cs:51-69 | the cell looked at in each direction lies outside the extent and, for a non-empty extent, in the ring of cells around it |
| Adjacency.MergeCandidate | TagJam18/Entities/TaggingLocation.cs:113-140 | the merge direction as an if-and-only-if per direction: left, then right (horizontal only), then up, then down (vertical only); none exactly when no allowed neighbour is a tagging location |
| Adjacency.Combine | TagJam18/Entities/TaggingLocation.cs:142-156 | a neighbour that is not 1x1 is rejected; on success the anchor is the componentwise minimum and width plus height grows by exactly one |
| Adjacency.LShapeReachesCombineAssert | TagJam18/Entities/TaggingLocation.cs:113-145 | tiles at (x, y), (x + 1, y) and (x, y + 1), in layer order: the first absorbs the second and becomes 2x1, then the third chooses that 2x1 above it and CombineWith rejects it (the Debug.Assert) |
| Adjacency.CombineChosenNeighbour | TagJam18/Entities/TaggingLocation.cs:147-156 | absorbing the single tile at the chosen neighbour cell never hits the both-axes exception; the strip stays a strip and covers exactly the old tiles plus that one |
| Adjacency.ChooseWallDirection | TagJam18/Entities/TaggingLocation.cs:94-109 | a vertical location faces a wall left, else right; otherwise a horizontal one faces a wall up, else down; with no qualifying wall the previous direction remains |
| PoolModel.Reference | TagJam18/ResourcePool.cs:22 | a disposed entry yields null; otherwise only its target, and only while it is alive |
| PoolModel.NewEntry | TagJam18/ResourcePool.cs:24-30 | a new entry has count 1, resurrection count 0, the object's runtime type, a live Reference to it and keeps the entry invariant |
| PoolModel.RessurectEntry | TagJam18/ResourcePool.cs:32-44 | succeeds iff the new object is non-null, has the recorded type and the old object is dead or disposed; then Reference is the new object, count 1, resurrections + 1 |
| PoolModel.GrabEntry | TagJam18/ResourcePool.cs:46-50 | adds one reference and changes neither the Reference nor the type |
| PoolModel.DropEntry | TagJam18/ResourcePool.cs:52-69 | fails iff the count is 0; otherwise the count drops by one; the entry becomes disposed iff it was 1, and the object is disposed iff the count was 1 and it is alive and IDisposable |
| PoolModel.Get | TagJam18/ResourcePool.cs:77-120 | an absent id calls the creator once and stores a count-1 entry of its type; a live T is returned itself with no creator call and one more reference; a live non-T or a dead entry of another recorded type fails and changes nothing; a dead entry of type T calls the creator once and resurrects at count 1; other ids are untouched |
| PoolModel.Drop | TagJam18/ResourcePool.cs:122-141 | fails with UnknownId iff the id is absent, with PairMismatch iff the object is not the entry's Reference, and with NoReferences iff the count is 0; a failure changes nothing; a success drops one reference and disposes only at the last one |
| PoolModel.Collect | TagJam18/ResourcePool.cs:16-22 | the collected entry's Reference becomes null; nothing else changes |
| PoolModel.ForceDisposalsExactlyOnce | TagJam18/ResourcePool.cs:156-170 | visiting every id once disposes each live IDisposable object exactly once, whatever its count, and disposes nothing else |
| PoolModel.DisposeAsWritten | TagJam18/ResourcePool.cs:150-172 | the source's Dispose(bool) leaves the Disposed flag as it found it |
| PoolModel.DisposeAsWrittenRepeats | TagJam18/ResourcePool.cs:150-172 | as written, a second Dispose() disposes a pooled cube again |
| PoolModel.DisposeCorrected | TagJam18/ResourcePool.cs:150-172 | with the flag set at the end, the call leaves the pool disposed, and an already disposed pool disposes nothing |
| PoolModel.DisposeCorrectedOnce | TagJam18/ResourcePool.cs:150-172 | with the flag set, a second Dispose() disposes nothing |
| PoolModel.GetSeries | TagJam18/ResourcePool.cs:77-120 | successive Gets give one result each, keep the pool invariant and never lose an id |
| PoolModel.GetsOfLiveEntry | TagJam18/ResourcePool.cs:83-112 | Gets of a live T never call the creator, all return that very object and each adds one reference |
| PoolModel.GetsShareFirstObject | TagJam18/ResourcePool.cs:113-118 | after the first Get of a new id, every Get returns the first object; the creator runs once and the count equals the number of Gets |
| PoolModel.DropSeries | TagJam18/ResourcePool.cs:122-141 | successive Drops give one result each and keep the pool invariant |
| PoolModel.DropsDisposeOnceAtZero | TagJam18/ResourcePool.cs:52-69 | n Drops of an entry holding n references all succeed and dispose the object exactly once, at the last; a further Drop with the old object fails the identity check |
| PoolModel.DropsOfLiveObject | TagJam18/ResourcePool.cs:52-69 | n Drops of n references succeed, dispose once and leave the entry disposed at count 0 |
| PoolModel.DropOfLiveObject | TagJam18/ResourcePool.cs:122-141 | one Drop of the live object succeeds and disposes it only if it held the last reference |
| PoolModel.GetResurrectsDisposedEntry | TagJam18/ResourcePool.cs:88-101 | after the last Drop, a Get of the recorded type builds a new object at count 1 and records the resurrection |
| ResourcePool.PoolValue.Reference | TagJam18/ResourcePool.cs:22 | the same on the class: null once disposed, else the weak reference's target while it is alive |
| ResourcePool.PoolValue.constructor | TagJam18/ResourcePool.cs:24-30 | the new value is NewEntry of the object |
| ResourcePool.PoolValue.Ressurect | TagJam18/ResourcePool.cs:32-44 | fails exactly when RessurectEntry fails, leaving the value unchanged; otherwise becomes RessurectEntry's entry |
| ResourcePool.PoolValue.GrabReference | TagJam18/ResourcePool.cs:46-50 | the value becomes GrabEntry of the old one |
| ResourcePool.PoolValue.DropReference | TagJam18/ResourcePool.cs:52-69 | fails exactly when DropEntry fails, leaving the value unchanged; otherwise becomes DropEntry's entry and reports the object it disposed |
| ResourcePool.PoolValue.Collect | TagJam18/ResourcePool.cs:16-22 | the weakly referenced object is no longer alive; nothing else changes |
| ResourcePool.ResourcePool.constructor | TagJam18/ResourcePool.cs:72 | an empty, undisposed pool |
| ResourcePool.ResourcePool.Get | TagJam18/ResourcePool.cs:77-120 | result, creator calls and new pool are those of PoolModel.Get; distinct ids keep distinct PoolValues |
| ResourcePool.ResourcePool.GetPooled | TagJam18/ResourcePool.cs:83-112 | the pooled-id half of Get agrees with PoolModel.Get |
| ResourcePool.ResourcePool.GetNew | TagJam18/ResourcePool.cs:113-118 | the new-id half of Get agrees with PoolModel.Get: a null creation fails and changes nothing, otherwise a fresh PoolValue with one reference is pooled under the id |
| ResourcePool.ResourcePool.Drop | TagJam18/ResourcePool.cs:122-141 | result and new pool are those of PoolModel.Drop; the Dispose call it makes, if any, is recorded |
| ResourcePool.ResourcePool.Collect | TagJam18/ResourcePool.cs:16-22 | the pool becomes PoolModel.Collect of the old one |
| ResourcePool.ResourcePool.Dispose | TagJam18/ResourcePool.cs:143-148 | Dispose(true): each id visited once, pool contents unchanged, the Dispose calls are those of DisposeCorrected |
| ResourcePool.ResourcePool.DisposeEntry | TagJam18/ResourcePool.cs:158-169 | one iteration disposes the visited entry's object iff it is live and IDisposable |
| ResourcePool.ResourcePool.DisposeWith | TagJam18/ResourcePool.cs:150-172 | visits each pooled id exactly once when disposing and not yet disposed, disposes what DisposeCorrected says, and sets Disposed |
| EntityManagement.Insert | TagJam18/TagGame.EntityManagement.cs:112-115 | the result is a permutation of the list plus the new element |
| EntityManagement.InsertSorted | TagJam18/TagGame.EntityManagement.cs:112-115 | inserting into a sorted list keeps it sorted |
| EntityManagement.SortByKey | TagJam18/TagGame.EntityManagement.cs:112-115 | the result is sorted by render order and is a permutation of the input |
| EntityManagement.IndexOf | TagJam18/TagGame.EntityManagement.cs:81 | the position List.Remove searches for: an index holding the element with no occurrence before it |
| EntityManagement.RemoveFirstMultiset | TagJam18/TagGame.EntityManagement.cs:81 | List.Remove drops one occurrence: the multiset loses one copy of the element (none when it is absent) |
| EntityManagement.RemoveFirstAbsent | TagJam18/TagGame.EntityManagement.cs:81 | removing an element the list does not hold leaves the list unchanged |
| EntityManagement.RemoveFirstCut | TagJam18/TagGame.EntityManagement.cs:81 | removing a held element cuts out exactly its first occurrence and keeps the order of everything else |
| EntityManagement.RemoveFirstKeepsSorted | TagJam18/TagGame.EntityManagement.cs:81 | removing one occurrence keeps the list sorted and adds nothing |
| EntityManagement.Filter | TagJam18/TagGame.EntityManagement.cs:97-110 | keeps a sub-multiset of the list whose every element passes the test |
| EntityManagement.FilterSpec | TagJam18/TagGame.EntityManagement.cs:97-110 | filtering distributes over concatenation (list order is kept), and an element is kept iff it is listed and passes |
| EntityManagement.FilterMembers | TagJam18/TagGame.EntityManagement.cs:97-110 | every kept element is listed, and every listed element that passes is kept |
| EntityManagement.AddNowSpec | TagJam18/TagGame.EntityManagement.cs:65-69 | an immediate add keeps the list sorted with the Player listed and adds exactly the entity; the entity becomes Player iff there was none and it is a Player, and an existing Player stays |
| EntityManagement.RemoveNowSpec | TagJam18/TagGame.EntityManagement.cs:81-84 | an immediate remove drops one occurrence, keeps the invariant, and clears Player exactly when it is the removed entity |
| EntityManagement.RemoveNowOrder | TagJam18/TagGame.EntityManagement.cs:81 | an immediate remove leaves the list unchanged when the entity is absent, and otherwise cuts out its first occurrence with the rest in order |
| EntityManagement.ApplyAllSnoc | TagJam18/TagGame.EntityManagement.cs:43-53 | the flush is first in, first out: applying a queue plus one op is applying the queue, then that op |
| EntityManagement.ApplyAllKeepsInv | TagJam18/TagGame.EntityManagement.cs:43-53 | flushing any queue keeps the list sorted and the Player listed |
| EntityManagement.ApplyRemovalsShrinks | TagJam18/TagGame.EntityManagement.cs:43-53 | a queue of removals leaves only entities the list already held |
| EntityManagement.ApplyOpMembers | TagJam18/TagGame.EntityManagement.cs:57-85 | an add or remove changes the list only by the entity it names |
| EntityManagement.ApplyAllMembers | TagJam18/TagGame.EntityManagement.cs:43-53 | a property of every listed and every queued entity holds of the flushed list |
| EntityManagement.RequestAllSpec | TagJam18/TagGame.EntityManagement.cs:57-85 | under protection, requests only append to the queue, in order; without it, they are applied in order; the depth never changes |
| EntityManagement.EntityRegistry.constructor | TagJam18/TagGame.EntityManagement.cs:11-26 | an empty list, no Player, depth 0, nothing queued |
| EntityManagement.EntityRegistry.ProtectEntitiesList | TagJam18/TagGame.EntityManagement.cs:27-33 | depth + 1, with list, Player and queue unchanged; the assert that nothing is queued at depth 0 is an invariant |
| EntityManagement.EntityRegistry.EndProtectEntitiesList | TagJam18/TagGame.EntityManagement.cs:35-54 | fails iff the depth is 0; otherwise depth - 1; only the call that reaches 0 applies the queue first to last and empties it |
| EntityManagement.EntityRegistry.EndProtectAfterRemovals | TagJam18/TagGame.EntityManagement.cs:35-54 | ending protection after queuing only removals leaves a subset of the old list |
| EntityManagement.EntityRegistry.AddEntity | TagJam18/TagGame.EntityManagement.cs:57-70 | while protected it only queues the add; otherwise it applies AddNow; the depth is unchanged |
| EntityManagement.EntityRegistry.InsertEntity | TagJam18/TagGame.EntityManagement.cs:65-69 | the unprotected add: appends, re-sorts, sets Player when none, keeps sorted |
| EntityManagement.EntityRegistry.RemoveEntity | TagJam18/TagGame.EntityManagement.cs:73-85 | while protected it only queues the removal; otherwise it applies RemoveNow; the depth is unchanged |
| EntityManagement.EntityRegistry.GetEntitiesOf | TagJam18/TagGame.EntityManagement.cs:97-110 | yields exactly the listed entities that are a T, in list order; the list, the Player, the depth and the queue are as before the enumeration |
| EntityManagement.EntityRegistry.GetEntities | TagJam18/TagGame.EntityManagement.cs:87-95 | yields the whole list in order; the list, the Player, the depth and the queue are as before the enumeration |
| EntityManagement.EntityRegistry.SortEntityRenderOrder | TagJam18/TagGame.EntityManagement.cs:112-115 | the list becomes sorted by render order and is a permutation of the old one |
| LevelFormat.TrimStartSuffix | TagJam18/Level.cs:230 | the leading trim keeps a suffix of the token, and what remains does not start with white space |
| LevelFormat.TrimEndPrefix | TagJam18/Level.cs:230 | the trailing trim keeps a prefix of the token, and what remains does not end with white space |
| LevelFormat.ParseInt32 | TagJam18/Level.cs:230 | a success lies in the Int32 range; a failure is a FormatException or an OverflowException |
| LevelFormat.ParseSigned | TagJam18/Level.cs:230 | the signed-number step of Convert.ToInt32: a success lies in the Int32 range, a failure is a FormatException or an OverflowException |
| LevelFormat.DecimalString | TagJam18/Level.cs:230 | the decimal form of an integer is non-empty and has no white space at either end |
| LevelFormat.Digits | TagJam18/Level.cs:230 | a non-empty string of decimal digits |
| LevelFormat.ParseDecimalRoundTrip | TagJam18/Level.cs:230 | every Int32 written in decimal parses back to itself |
| LevelFormat.ParsePaddedDecimal | TagJam18/Level.cs:230 | white space around the number does not change its value |
| LevelFormat.RemoveCarriageReturns | TagJam18/Level.cs:219 | `Replace("\r", "")` leaves no carriage return, and text without one is unchanged |
| LevelFormat.RemoveChar | TagJam18/Level.cs:219 | as `Replace("\r", "")` uses it: text without the removed character is unchanged |
| LevelFormat.RemoveCharMembers | TagJam18/Level.cs:219 | a character occurs in the result iff it occurs in the text and is not the removed one |
| LevelFormat.FieldLength | TagJam18/Level.cs:219 | the length of the run before the first separator |
| LevelFormat.SplitNonEmpty | TagJam18/Level.cs:219 | every piece is non-empty and free of the separator |
| LevelFormat.SplitKeepsAllButSeparators | TagJam18/Level.cs:225 | splitting loses exactly the separators: the pieces concatenate to the text without them |
| LevelFormat.SplitJoinRoundTrip | TagJam18/Level.cs:225 | non-empty, separator-free pieces joined by the separator split back into the same pieces |
| LevelFormat.LineTokens | TagJam18/Level.cs:225-228 | the k-th token of line y gets the coordinates (k, y) |
| LevelFormat.LineTokensAt | TagJam18/Level.cs:220-228 | line j's tokens sit in order at their offset in the whole token list, the k-th at (k, j) |
| LevelFormat.TokenOffsetStep | TagJam18/Level.cs:220-228 | each line adds its own tokens to the offset, and the last offset counts every token |
| LevelFormat.Placements | TagJam18/Level.cs:226-234 | on success, at most one placement per token, and none for id 0 |
| LevelFormat.PlacementsUpTo | TagJam18/Level.cs:226-234 | the placements of a token prefix: at most one per token, none for id 0 |
| LevelFormat.PlacementsUpToAgree | TagJam18/Level.cs:226-234 | placements of a prefix depend only on that prefix |
| LevelFormat.PlacementsOfPrefix | TagJam18/Level.cs:226-234 | placements of the first n tokens are the placements of that prefix |
| LevelFormat.PlacementsStep | TagJam18/Level.cs:230-233 | a token parsing to 0 adds nothing, and any other id adds its MakeEntity call |
| LevelFormat.ValidateHeader | TagJam18/Level.cs:109-125 | succeeds iff the size parses and is non-negative, there is exactly one layer, its width and height equal the map's, and its encoding is csv; then yields the size and the CSV text |
| LevelFormat.CheckHeader | TagJam18/Level.cs:113-125 | the same checks once the sizes are parsed: succeeds iff the map's size parsed and is non-negative, there is one layer, its parsed size is the map's and its encoding is csv |
| LevelFormat.CheckLayer | TagJam18/Level.cs:120-125 | succeeds iff the layer's parsed width and height equal the map's and its encoding is csv |
| LevelFormat.RegistryOf | TagJam18/Level.cs:77-96 | every registered id is at least 1 and maps to a constructor carrying that id |
| LevelFormat.RegistryOfSucceeds | TagJam18/Level.cs:85-89 | the registry is built iff every attribute is on an Entity class and no id repeats |
| LevelFormat.RegistryOfKeys | TagJam18/Level.cs:94 | a built registry has exactly the declared ids |
| LevelFormat.RegistryOfValues | TagJam18/Level.cs:94 | a built registry maps each declared id to its own declaration |
| LevelFormat.BuildEntityConstructors | TagJam18/Level.cs:77-96 | the static constructor's loop builds RegistryOf, stopping with its first error |
| LevelFormat.RegistryFailureSticks | TagJam18/Level.cs:85-89 | once a prefix of the scan fails, the whole scan fails with the same error |
| LevelFormat.DeclaredRegistry | TagJam18/Level.cs:77-96 | five entity declarations with ids 1 to 5 give a registry of exactly those ids, so id 0 is never registered |
| LevelFormat.DoorAndPlayerTilesRejected | TagJam18/Level.cs:246 | as declared, the Door (4) and Player (5) constructors cannot take MakeEntity's arguments, while ids 1 to 3 can |
| LevelFormat.CorrectedTilesAccepted | TagJam18/Level.cs:246 | with every constructor taking the level, every registered id can be instantiated |
| LevelFormat.Next | TagJam18/Level.cs:179-180 | Random.Next(lo, hi) gives lo for an empty range, else a value in [lo, hi) |
| LevelFormat.MaxDecalTiles | TagJam18/Level.cs:167-168 | the number of whole 7-tile ground textures that fit, truncated toward zero |
| LevelFormat.NumDecals | TagJam18/Level.cs:171-175 | a count in [2, max) when that range is non-empty, else 2 |
| LevelFormat.DecalLoop | TagJam18/Level.cs:177-188 | the decal loop only consumes random draws, at most three per remaining attempt of five, and returns its inputs once the count is reached or the five attempts are spent |
| LevelFormat.DecalLoopSpec | TagJam18/Level.cs:177-189 | the loop adds at most 5 decals and at most the wanted number, keeps the old ones, and keeps spots distinct, on the ground grid and with a texture in [0, 9) |
| World.Actor.constructor | TagJam18/Entity.cs:11-15 | a Beer or Player remembers its kind and tile |
| World.Removals | TagJam18/Entities/TaggingLocation.cs:159 | one removal request per absorbed location, in order |
| World.RequestRemoval | TagJam18/TagGame.EntityManagement.cs:73-85 | requesting the removals of a list, then of one more location, is requesting the removals of the longer list |
| World.QueueRemovals | TagJam18/TagGame.EntityManagement.cs:57-85 | queuing the removals of two lists in turn queues the removals of their concatenation |
| World.Wall.constructor | TagJam18/Entities/Wall.cs:38-49 | a wall at its tile, connected nowhere |
| World.ConnectsWith | TagJam18/Entities/Wall.cs:105-108 | a wall connects exactly to a neighbour that is a wall or a door, never to a tagging location or an empty cell |
| World.Wall.ComputeAdjacency | TagJam18/Entities/Wall.cs:51-103 | the flags become WallFlagsFor of whether each neighbour is a wall or a door; they depend only on the four neighbour cells, so recomputing on an unchanged grid gives the same flags |
| World.Door.constructor | TagJam18/Entities/Door.cs:29-37 | a door at its tile, attached left only |
| World.Door.ComputeAdjacency | TagJam18/Entities/Door.cs:39-55 | the flags become DoorSide of whether each neighbour is a wall (doors do not count, out-of-grid cells are empty); exactly one flag is set, so ComputeTransforms' assert holds |
| World.TaggingLocation.constructor | TagJam18/Entities/TaggingLocation.cs:71-84 | a 1x1 extent at its tile, not absorbed, facing no wall |
| World.TaggingLocation.MarkAbsorbed | TagJam18/Entities/TaggingLocation.cs:160 | the absorbed location is marked, so its own adjacency pass does nothing |
| World.TaggingLocation.GrowOver | TagJam18/Entities/TaggingLocation.cs:147-156 | the extent becomes Combine of the old extent and the neighbour's tile, and covers exactly the old tiles plus that one |
| World.TaggingLocation.CombineWith | TagJam18/Entities/TaggingLocation.cs:142-164 | fails iff the neighbour is not 1x1, changing nothing; on success the extent is Combine's, that tile's cell now holds this location, no other cell changes, the neighbour is marked absorbed and its removal requested |
| World.TaggingLocation.Absorb | TagJam18/Entities/TaggingLocation.cs:147-160 | absorbing a 1x1 neighbour reaches the CombineWith state |
| World.TaggingLocation.GrowAndClaim | TagJam18/Entities/TaggingLocation.cs:147-158 | the extent grows over the neighbour's tile, and only that cell is rewritten to this location |
| World.TaggingLocation.Neighbour | TagJam18/Entities/TaggingLocation.cs:51-69 | the entity left, right, above or below a location is one in a grid cell next to its extent and outside it |
| World.TaggingLocation.ChooseMerge | TagJam18/Entities/TaggingLocation.cs:113-140 | finds a neighbour iff MergeCandidate gives one, in its direction and along the long axis |
| World.TaggingLocation.MergeWithOtherTaggingLocations | TagJam18/Entities/TaggingLocation.cs:113-140 | returns true iff a merge candidate exists, then combines with it; the tiles not held by this location strictly decrease, so the merge loop terminates |
| World.TaggingLocation.FaceWall | TagJam18/Entities/TaggingLocation.cs:94-109 | the wall direction becomes ChooseWallDirection of the neighbours at the anchor, keeping the old value when no wall qualifies |
| World.TaggingLocation.ComputeAdjacency | TagJam18/Entities/TaggingLocation.cs:86-110 | an absorbed location changes nothing; otherwise it merges until no candidate remains, then faces the wall; the absorbed locations are marked and their removals requested in order |
| World.TaggingLocation.AbsorbNeighbours | TagJam18/Entities/TaggingLocation.cs:92 | the merge loop ends with no candidate left, the extent only grows, and every cell keeps its kind |
| World.Level.constructor | TagJam18/Level.cs:109-113 | an empty grid of the map's size |
| World.Level.GetStaticEntityAt | TagJam18/Level.cs:255-261 | the lookup yields an entity only for a cell inside the grid; outside it is null |
| World.Level.SetStaticEntityAt | TagJam18/Level.cs:263-268 | outside the grid an IndexOutOfRange, changing nothing; inside, it returns the previous occupant, writes the cell and leaves every other cell unchanged |
| World.Level.Construct | TagJam18/Level.cs:246 | builds an entity of the declared kind at (x, y) (MadeAt: a wall, door, Beer or Player with TileX x and TileY y, a tagging location covering just that tile); it is static exactly for Wall, TaggingLocation and Door |
| World.Level.NewWall | TagJam18/Entities/Wall.cs:38-49 | the new wall is at (x, y) and recorded as this level's |
| World.Level.NewDoor | TagJam18/Entities/Door.cs:29-37 | the new door is at (x, y) and recorded as this level's |
| World.Level.NewTaggingLocation | TagJam18/Entities/TaggingLocation.cs:71-84 | the new location is recorded as this level's, a 1x1 extent at its tile |
| World.Level.MakeEntity | TagJam18/Level.cs:238-253 | an unknown id does nothing; a constructor that cannot take the level fails; otherwise the new entity, made at (x, y), is registered, and a static one needs its cell in the grid and empty (the assert), which it then alone occupies |
| World.Level.Register | TagJam18/Entity.cs:11-15 | the new entity is handed to AddEntity |
| World.Level.PlaceTile | TagJam18/Level.cs:248-252 | a static entity made for (x, y) goes only into an empty in-grid cell, changing no other cell |
| World.Level.ClaimCell | TagJam18/Entities/TaggingLocation.cs:158 | the cell now holds the location, the previous occupant is returned, and no other cell changes |
| World.Level.RemoveAbsorbed | TagJam18/Entity.cs:20-24 | the absorbed location's removal is requested from the registry |
| World.Level.ProcessToken | TagJam18/Level.cs:228-233 | the outcome is exactly TokenOutcome: a token that does not parse fails with the parse error; 0 passes and changes neither the grid nor the registry; an unregistered id passes and makes nothing; a registered one fails with ConstructorArgumentMismatch when its constructor cannot take the level, else with PlaceOutcome's IndexOutOfRange or CellOccupied on the cell as the earlier placements left it; success extends the placements and keeps LoadedSoFar |
| World.Level.ProcessCsv | TagJam18/Level.cs:215-236 | on success every token was processed, the MakeEntity calls are Placements of the layer's tokens, LoadedSoFar holds for them from the grid and registry before the call, and every registered placement's constructor took the level; the calls made are always Placeable; a failure is exactly TokenOutcome of the first token not completed, on the cells its predecessors left |
| World.Level.ProcessLine | TagJam18/Level.cs:226-234 | the tokens of one line, the k-th at column k, stopping at the first failure; the calls so far stay Placements of the tokens consumed and stay Placeable; on success LoadedSoFar holds for them; a failure is exactly TokenOutcome of the failing token |
| World.Level.MakePlacement | TagJam18/Level.cs:238-253 | the outcome is exactly PlaceOutcome on the cell's kind before the call: an unknown id passes and makes nothing; a constructor that cannot take the level is ConstructorArgumentMismatch; a static entity outside the grid is IndexOutOfRange and on an occupied cell CellOccupied; otherwise it passes, LoadedSoFar extends by this placement, and a new static entity occupies its cell, which was empty |
| World.ScanStep | TagJam18/Level.cs:226-234 | after tokens that all passed, the pass over one token more has exactly the next token's TokenOutcome on the placements made so far |
| World.ScanPassesPlaceable | TagJam18/Level.cs:226-234 | when the placements of the tokens so far are Placeable, the pass over those tokens passes |
| World.ScanFailureSticks | TagJam18/Level.cs:226-234 | once a token has failed, the pass over any longer prefix keeps that failure: later tokens are never processed |
| World.ScanNext | TagJam18/Level.cs:226-234 | after tokens whose placements are all Placeable, the pass over one token more has exactly that token's TokenOutcome |
| World.ScanFailsAt | TagJam18/Level.cs:220-235 | when the first failing token follows placeable ones, the pass over the whole layer, or any longer prefix, ends with exactly that token's failure |
| World.PlaceableSnoc | TagJam18/Level.cs:238-253 | one placement more is Placeable exactly when the earlier ones are and its MakeEntity outcome on the cell they left is Pass |
| World.PlaceableFront | TagJam18/Level.cs:226-234 | the placements before a Placeable token's are Placeable, the token parses, and its own placement, unless 0, passes on the cells they left |
| World.PlacedKindEmpty | TagJam18/Level.cs:248-252 | a cell is still empty after the placements exactly when it was empty and none of them is a static entity for it |
| World.WellFormedLayerSnoc | TagJam18/Level.cs:238-253 | one placement more keeps a layer well formed exactly when its constructor takes the level and, if static, it lies in the grid on an empty cell no earlier static placement took |
| World.PlaceableIffWellFormed | TagJam18/Level.cs:238-253 | the placements all pass MakeEntity in turn exactly when they form a well-formed layer: accepting constructors, static entities inside the grid, on empty cells, no two on one cell |
| World.ScanPassPlaceable | TagJam18/Level.cs:226-234 | a pass over tokens that all passed has parsed every one of them, and their placements all pass MakeEntity in turn |
| World.LayerPassesIffWellFormed | TagJam18/Level.cs:215-253 | the CSV pass over a layer passes if and only if every token parses and the layer is well formed on the grid as it was |
| World.Level.LoadedOneMore | TagJam18/Level.cs:238-253 | a placement that passed, with the entity MakeEntity made for it, if any, of the declared kind, handed to AddEntity and placed in its own cell only, extends LoadedSoFar by one |
| World.Level.EntitiesPlacedSnoc | TagJam18/Level.cs:240-246 | one more placement whose constructor takes the level keeps Instantiable, and adds the declared kind to the made entities exactly when its id is registered |
| World.Level.KindsPlacedOneMore | TagJam18/Level.cs:248-252 | a placement whose static entity takes its cell, with no other cell changed, keeps every cell's kind equal to PlacedKind |
| World.PlacedKindSnoc | TagJam18/Level.cs:248-252 | the last placement decides its own cell's kind when it places a static entity there, and leaves every other cell's kind as before |
| World.PlacedKindUnnamed | TagJam18/Level.cs:248-252 | a cell no static placement names keeps its prior kind |
| World.PlacedKindLast | TagJam18/Level.cs:248-252 | a cell has the kind of the last static placement naming it |
| World.InstantiableSnoc | TagJam18/Level.cs:240-246 | one more placement keeps Instantiable exactly when its registered constructor takes the level |
| World.InstantiableMembers | TagJam18/Level.cs:240-246 | Instantiable holds iff every registered placement's constructor takes the level |
| World.DoorOrPlayerTileFailsLoad | TagJam18/Level.cs:246 | with the classes as declared, a layer holding a 4 or 5 tile is not Instantiable, so LoadLevel cannot succeed on it |
| World.CorrectedLayersInstantiable | TagJam18/Level.cs:246 | with every constructor taking the level, every layer is Instantiable |
| World.Level.ResolvedInPlace | TagJam18/Entities/Wall.cs:51-103 | a resolved wall or door resolved the neighbours of the cell that holds it |
| World.DeclaredKindsSnoc | TagJam18/Level.cs:240-246 | one more placement adds its declared kind exactly when its id is registered |
| World.RequestAddition | TagJam18/Entity.cs:11-15 | handing one more entity to AddEntity is one more add request on the registry |
| World.Level.ComputeAdjacency | TagJam18/Level.cs:132-136 | under protection, every wall, door and tagging location the registry lists resolves against the final grid; cell kinds are unchanged; the removals of absorbed locations are queued and applied at the end |
| World.Level.EndPass | TagJam18/TagGame.EntityManagement.cs:35-54 | ending the pass's protection applies the queued removals and keeps every listed entity resolved |
| World.Level.ComputeAdjacencyOfAll | TagJam18/Level.cs:133-136 | each target resolves in order, while the registry only queues the removals |
| World.Level.ResolveTarget | TagJam18/Level.cs:135 | the current target resolves, and entities resolved earlier stay resolved |
| World.Level.ComputeAdjacencyOf | TagJam18/Level.cs:135 | one entity's ComputeAdjacency resolves it, and no earlier resolution is undone |
| World.Level.ComputeTagAdjacency | TagJam18/Entities/TaggingLocation.cs:86-110 | a tagging location settles, and other entities keep their resolution |
| World.Level.IsDecalSpotFree | TagJam18/Level.cs:192-200 | true iff no decal is at the tile |
| World.Level.LoadTiles | TagJam18/Level.cs:127 | the outcome is exactly ScanOutcome of the layer's tokens: Pass, or the first failing token's TokenOutcome; on success every token has parsed, the placements are the layer's, every registered one has a constructor that takes the level, and LoadedSoFar holds for them from the grid and registry before the call |
| World.Level.FinishConstruction | TagJam18/Level.cs:132-189 | every cell keeps its kind; on success every listed entity is resolved, the registry had the absorbed locations removed, and the decals satisfy DecalsPlaced |
| World.Level.PlaceGroundDecals | TagJam18/Level.cs:166-189 | the decals are those of DecalLoop fed by the draws; from none, at most five on distinct spots on the ground grid |
| World.Level.DecalAttempts | TagJam18/Level.cs:177-189 | the loop's decals and draws are DecalLoop's |
| World.LoadLevel | TagJam18/Level.cs:98-190 | a bad header fails with its error before anything changes; otherwise a failing tile layer fails with the ScanOutcome of its tokens on an empty grid (the first failing token's exact cause), and a layer that passes, in particular every well-formed layer whose tokens parse, gives success or CombineFailed(OtherNotSingleTile) from the adjacency pass; a success has the header's size, each cell of the kind PlacedKind gives from an empty grid, every registered placement's constructor taking the level (so a layer naming one that does not fails), made entities of the registered placements' declared kinds, a registry with those added and then the absorbed locations removed, every entity resolved, every listed wall and door resolved against the neighbours of the cell holding it, and valid decals |

## Left out

- File I/O, XML parsing and `XmlNodeSimple.cs` are left out. The header is
  a `MapHeader` value of attribute strings.
- Reflection is left out. The assembly scan becomes a list of constructor
  declarations. `ConstructorInfoEx.cs` is not part of this model.
- Floating point, matrices and `Position` are left out, with every `Render`
  method, the `ComputeTransforms` matrices, Wall's draw offsets and the
  ground and decal geometry. Only the boolean and integer decisions are
  kept.
- The resources that entities and the level get from and drop into the
  pool (textures, meshes) are left out of level loading. The pool is
  modelled on its own.
- `Debug.Print` diagnostics, including the pool's leak messages, are left
  out: they change no state.
- The pool's `lock` is left out: the model is sequential.
- The finalizer is left out. The garbage collector is the explicit
  `Collect` step on one entry.
- `Random` is left out. The decal draws are the input stream `draws`, one
  raw number per call, reduced into range by `Next`.
- `Level`'s own registration as an entity (`RenderOrder = Int32.MinValue`)
  is left out. The level's entities all have `RenderOrder` 0, because none
  sets it.
- `Entity.Dispose`, which `Remove` calls after `RemoveEntity`, is left out:
  it only drops resources.
- Beer, Player and the camera are left out. Beer and Player are `Actor`s
  with a kind and a tile. `Entities/Player.cs` is not part of this model.
- Int32 wrap-around of tile coordinates and sizes is left out. The grid
  size comes from `Convert.ToInt32`, whose range is modelled.
- World.TaggingLocation.ComputeAdjacency requires `level.Valid()`: every
  cell holding a tagging location lies inside that location's extent. The
  level establishes this and the pass keeps it. Without it, the source's
  merge loop may not terminate.
- EntityManagement.SortByKey resolves equal render orders stably, while
  `List.Sort` is unstable and promises no order among equal keys. The
  contracts that use it (SortEntityRenderOrder, AddNow and so AddEntity
  and InsertEntity) therefore fix one tie order, which the source does
  not. Every level entity has render order 0, so this fixes the order of
  the entity list, and with it the order in which the adjacency pass
  visits walls, doors and tagging locations. The source may visit them in
  another order.
- EntityManagement.EntityRegistry.GetEntitiesOf and GetEntities are full
  enumerations. The lazy `yield` is not modelled, nor is a caller that
  stops half way and leaves the list protected.
- ResourcePool.ResourcePool.Dispose and DisposeWith set `Disposed`, which
  the source never does (see Findings). PoolModel.DisposeAsWritten models
  the source as written.
- World.Level.ComputeAdjacency: on a failure it does not state what was
  partly merged, only that the error is CombineWith's assert and that the
  list stays protected.
- World.TaggingLocation.ComputeAdjacency does not state that a contiguous
  run of single tiles ends as a single location covering the run. It
  states that the merging stops only when no candidate remains, and that
  every absorbed tile's cell holds the absorbing location.
- World.LoadLevel states ResolvedAt only for cells whose entity the
  registry lists. It does not prove that every entity in the grid is
  still listed after the pass, which would need an invariant linking the
  grid to the registry's list.
- The unused level parameter of TaggingLocation's `ComputeAdjacency` is
  left out: the location uses its own level.
- World.Level.MakeEntity fails at the `Debug.Assert` before writing the
  cell, as a debug build stops there. The new entity stays registered,
  as in the source.
- World.TaggingLocation.ComputeAdjacency fails at CombineWith's
  `Debug.Assert`, as a debug build stops there. The assert is reachable
  (Adjacency.LShapeReachesCombineAssert). A release build goes on and
  grows the single tile into a rectangle that overlaps the other one; the
  model does not follow that path.

## Findings

| source | as written | input that shows it | evidently intended | confidence | as-written member | corrected member |
|---|---|---|---|---|---|---|
| TagJam18/ResourcePool.cs:150-172 | `Dispose(bool)` tests `Disposed` but nothing sets it, so every further `Dispose()` disposes the live resources again | a pool with one live IDisposable entry `"Mesh/Cube"`, and `Dispose()` called twice: the cube is disposed on both calls | set `Disposed` once the entries are disposed, so that a second call does nothing | high (not executed) | PoolModel.DisposeAsWrittenRepeats | PoolModel.DisposeCorrectedOnce |
| TagJam18/Level.cs:246 | `MakeEntity` invokes every registered constructor with `(this, x, y)`, where `this` is the Level, but the Door (id 4, TagJam18/Entities/Door.cs:29-31) and Player (id 5) constructors take the game as first parameter | a tile layer holding the token `4`: the invoke cannot pass a Level where the game is expected | constructors whose first parameter accepts the level, as Wall, Beer and TaggingLocation have | medium (not executed) | World.DoorOrPlayerTileFailsLoad | World.CorrectedLayersInstantiable |

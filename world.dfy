/** The level and the tile entities it builds: the grid of static tile
    entities, the Wall, Door and TaggingLocation classes with their
    adjacency resolvers, MakeEntity, ProcessCsv, the adjacency pass and the
    ground decals. Every entity is registered with the game's
    EntityRegistry; the resolvers are proved to leave their fields at the
    values the rules of module Adjacency give for the final grid. */
module World {
  import opened Wrappers
  import opened Adjacency
  import opened LevelFormat
  import opened EntityManagement

  // ---------------------------------------------------------------------
  // Entities

  /** A tile-set entity that occupies no grid cell: a Beer or the Player. */
  class Actor {
    const Kind: EntityKind
    const TileX: int
    const TileY: int

    constructor(kind: EntityKind, x: int, y: int)
      ensures Kind == kind && TileX == x && TileY == y
    {
      Kind := kind;
      TileX := x;
      TileY := y;
    }
  }

  /** The entities marked [StaticTileEntity]. */
  datatype StaticEntity = WallTile(wall: Wall) | DoorTile(door: Door) | TagTile(tag: TaggingLocation)

  /** The entities the level makes, as the registry holds them. */
  datatype Entity = Static(tile: StaticEntity) | Mobile(actor: Actor)

  /** The RenderOrder of every entity the level makes (the property is
      never set by them). */
  function RenderOrderOf(e: Entity): int { 0 }

  /** The `entity is Player` test. */
  predicate IsPlayerEntity(e: Entity) {
    e.Mobile? && e.actor.Kind == PlayerKind
  }

  /** The `as INeedsAdjacencyInformation` test: walls, doors and tagging
      locations. */
  predicate NeedsAdjacency(e: Entity) {
    e.Static?
  }

  function KindOfEntity(e: Entity): EntityKind {
    match e
    case Static(WallTile(_)) => WallKind
    case Static(DoorTile(_)) => DoorKind
    case Static(TagTile(_)) => TaggingLocationKind
    case Mobile(a) => a.Kind
  }

  /** What the resolvers can see of a grid cell: which class it holds. */
  datatype CellKind = EmptyCell | WallCell | DoorCell | TagCell

  function KindOf(c: Option<StaticEntity>): CellKind {
    match c
    case None => EmptyCell
    case Some(WallTile(_)) => WallCell
    case Some(DoorTile(_)) => DoorCell
    case Some(TagTile(_)) => TagCell
  }

  /** `is Wall`. */
  predicate IsWall(c: Option<StaticEntity>) { KindOf(c) == WallCell }

  /** `is TaggingLocation`. */
  predicate IsTaggingLocation(c: Option<StaticEntity>) { KindOf(c) == TagCell }

  /** Wall.ConnectsWith: a wall or a door. */
  predicate ConnectsWith(c: Option<StaticEntity>): (b: bool)
    ensures b <==> c.Some? && (c.value.WallTile? || c.value.DoorTile?)
    ensures b ==> !IsTaggingLocation(c)
  {
    KindOf(c) == WallCell || KindOf(c) == DoorCell
  }

  /** The removal requests of absorbed tagging locations. */
  function Removals(ts: seq<TaggingLocation>): (ops: seq<EntityOperation<Entity>>)
    ensures |ops| == |ts|
    ensures forall i :: 0 <= i < |ts| ==> ops[i] == EntityOperation(false, Static(TagTile(ts[i])))
  {
    seq(|ts|, i requires 0 <= i < |ts| => EntityOperation(false, Static(TagTile(ts[i]))))
  }

  /** Queueing the removals of `a` and then of `b` queues those of a + b. */
  lemma QueueRemovals(q: seq<EntityOperation<Entity>>, a: seq<TaggingLocation>, b: seq<TaggingLocation>)
    ensures q + Removals(a) + Removals(b) == q + Removals(a + b)
  {
    assert Removals(a + b) == Removals(a) + Removals(b);
  }

  /** Requesting the removals of `a` and then that of `t` requests those of
      a + [t]. */
  lemma RequestRemoval(reg: Registry<Entity>, a: seq<TaggingLocation>, t: TaggingLocation,
                       key: Entity -> int, isPlayer: Entity -> bool)
    ensures RequestAll(reg, Removals(a + [t]), key, isPlayer) ==
              Request(RequestAll(reg, Removals(a), key, isPlayer), EntityOperation(false, Static(TagTile(t))), key, isPlayer)
  {
    assert Removals(a + [t])[..|a|] == Removals(a);
  }

  /** The addition requests of the entities the tile layer makes. */
  function Additions(es: seq<Entity>): (ops: seq<EntityOperation<Entity>>)
    ensures |ops| == |es|
    ensures forall i :: 0 <= i < |es| ==> ops[i] == EntityOperation(true, es[i])
  {
    seq(|es|, i requires 0 <= i < |es| => EntityOperation(true, es[i]))
  }

  /** Requesting the additions of `a` and then that of `e` requests those
      of a + [e]. */
  lemma RequestAddition(reg: Registry<Entity>, a: seq<Entity>, e: Entity,
                        key: Entity -> int, isPlayer: Entity -> bool)
    ensures RequestAll(reg, Additions(a + [e]), key, isPlayer) ==
              Request(RequestAll(reg, Additions(a), key, isPlayer), EntityOperation(true, e), key, isPlayer)
  {
    assert Additions(a + [e])[..|a|] == Additions(a);
  }

  // ---------------------------------------------------------------------
  // What the tile layer makes

  /** The kind of cell an entity of kind `k` occupies: none for a Beer or
      the Player. */
  function CellKindOf(k: EntityKind): CellKind {
    match k
    case WallKind => WallCell
    case DoorKind => DoorCell
    case TaggingLocationKind => TagCell
    case BeerKind => EmptyCell
    case PlayerKind => EmptyCell
  }

  /** The kinds of the entities MakeEntity builds for the placements
      `ps`, in order: one per placement whose id is registered. */
  function DeclaredKinds(ps: seq<Placement>, ctors: map<int, ConstructorDecl>): (ks: seq<EntityKind>)
    ensures |ks| <= |ps|
    ensures (forall p :: p in ps ==> p.id in ctors) ==> |ks| == |ps|
  {
    if ps == [] then []
    else if ps[|ps| - 1].id in ctors then DeclaredKinds(ps[..|ps| - 1], ctors) + [ctors[ps[|ps| - 1].id].kind]
    else DeclaredKinds(ps[..|ps| - 1], ctors)
  }

  lemma DeclaredKindsSnoc(ps: seq<Placement>, p: Placement, ctors: map<int, ConstructorDecl>)
    ensures DeclaredKinds(ps + [p], ctors) ==
              if p.id in ctors then DeclaredKinds(ps, ctors) + [ctors[p.id].kind] else DeclaredKinds(ps, ctors)
  {
    assert (ps + [p])[..|ps|] == ps;
  }

  /** Whether the constructor of every registered id among the
      placements `ps` takes (level, x, y), so that none of their
      MakeEntity calls fails its Invoke. */
  predicate Instantiable(ps: seq<Placement>, ctors: map<int, ConstructorDecl>) {
    || ps == []
    || (&& Instantiable(ps[..|ps| - 1], ctors)
        && (ps[|ps| - 1].id in ctors ==> AcceptsLevelArguments(ctors[ps[|ps| - 1].id])))
  }

  lemma InstantiableSnoc(ps: seq<Placement>, p: Placement, ctors: map<int, ConstructorDecl>)
    ensures Instantiable(ps + [p], ctors) <==>
              Instantiable(ps, ctors) && (p.id in ctors ==> AcceptsLevelArguments(ctors[p.id]))
  {
    assert (ps + [p])[..|ps|] == ps;
  }

  /** Instantiable holds exactly when every registered placement's
      constructor takes the level. */
  lemma {:induction false} InstantiableMembers(ps: seq<Placement>, ctors: map<int, ConstructorDecl>)
    ensures Instantiable(ps, ctors) <==> forall p :: p in ps && p.id in ctors ==> AcceptsLevelArguments(ctors[p.id])
  {
    if ps != [] {
      InstantiableMembers(ps[..|ps| - 1], ctors);
      assert ps == ps[..|ps| - 1] + [ps[|ps| - 1]];
    }
  }

  /** With the tile classes as declared, a tile layer holding a door (4)
      or player (5) tile is not instantiable, so loading it fails. */
  lemma DoorOrPlayerTileFailsLoad(ps: seq<Placement>, i: nat)
    requires i < |ps| && (ps[i].id == 4 || ps[i].id == 5)
    ensures RegistryOf(SourceDeclarations()).Success?
    ensures !Instantiable(ps, RegistryOf(SourceDeclarations()).value)
  {
    DoorAndPlayerTilesRejected();
    InstantiableMembers(ps, RegistryOf(SourceDeclarations()).value);
    assert ps[i] in ps;
  }

  /** With every tile constructor taking the level, every tile layer is
      instantiable. */
  lemma CorrectedLayersInstantiable(ps: seq<Placement>)
    ensures RegistryOf(CorrectedDeclarations()).Success?
    ensures Instantiable(ps, RegistryOf(CorrectedDeclarations()).value)
  {
    CorrectedTilesAccepted();
    InstantiableMembers(ps, RegistryOf(CorrectedDeclarations()).value);
  }

  /** The kinds of the entities `es`, in order. */
  function EntityKinds(es: seq<Entity>): (ks: seq<EntityKind>)
    ensures |ks| == |es|
    ensures forall i :: 0 <= i < |es| ==> ks[i] == KindOfEntity(es[i])
  {
    if es == [] then [] else EntityKinds(es[..|es| - 1]) + [KindOfEntity(es[|es| - 1])]
  }

  /** Whether MakeEntity puts a static entity at (x, y) for the placement
      `p`. */
  predicate StaticAt(p: Placement, ctors: map<int, ConstructorDecl>, x: int, y: int) {
    p.id in ctors && IsStaticKind(ctors[p.id].kind) && p.x == x && p.y == y
  }

  /** The kind of cell (x, y) once the placements `ps` are made, starting
      from the kind `prior`. */
  function PlacedKind(ps: seq<Placement>, ctors: map<int, ConstructorDecl>, x: int, y: int, prior: CellKind): CellKind {
    if ps == [] then prior
    else if StaticAt(ps[|ps| - 1], ctors, x, y) then CellKindOf(ctors[ps[|ps| - 1].id].kind)
    else PlacedKind(ps[..|ps| - 1], ctors, x, y, prior)
  }

  lemma PlacedKindSnoc(ps: seq<Placement>, p: Placement, ctors: map<int, ConstructorDecl>, x: int, y: int, prior: CellKind)
    ensures PlacedKind(ps + [p], ctors, x, y, prior) ==
              if StaticAt(p, ctors, x, y) then CellKindOf(ctors[p.id].kind) else PlacedKind(ps, ctors, x, y, prior)
  {
    assert (ps + [p])[..|ps|] == ps;
  }

  /** A cell that no static placement names keeps its kind. */
  lemma {:induction false} PlacedKindUnnamed(ps: seq<Placement>, ctors: map<int, ConstructorDecl>, x: int, y: int, prior: CellKind)
    requires forall j :: 0 <= j < |ps| ==> !StaticAt(ps[j], ctors, x, y)
    ensures PlacedKind(ps, ctors, x, y, prior) == prior
  {
    if ps != [] {
      PlacedKindUnnamed(ps[..|ps| - 1], ctors, x, y, prior);
    }
  }

  /** A cell takes the kind of the last static placement naming it. */
  lemma {:induction false} PlacedKindLast(ps: seq<Placement>, ctors: map<int, ConstructorDecl>, x: int, y: int,
                                          prior: CellKind, i: nat)
    requires i < |ps| && StaticAt(ps[i], ctors, x, y)
    requires forall j :: i < j < |ps| ==> !StaticAt(ps[j], ctors, x, y)
    ensures PlacedKind(ps, ctors, x, y, prior) == CellKindOf(ctors[ps[i].id].kind)
  {
    if i < |ps| - 1 {
      PlacedKindLast(ps[..|ps| - 1], ctors, x, y, prior, i);
    }
  }

  // ---------------------------------------------------------------------
  // Why the CSV pass stops

  /** What MakeEntity(id, x, y) returns on a `w` by `h` grid whose cell
      (x, y) has the kind `cell`: an unknown id is skipped, a constructor
      that cannot take (level, x, y) fails the Invoke, a Beer or the Player
      needs no cell, and a wall, door or tagging location needs its cell
      inside the grid and empty. */
  function PlaceOutcome(ctors: map<int, ConstructorDecl>, id: int, x: int, y: int, w: int, h: int,
                        cell: CellKind): Outcome<LevelError> {
    if id !in ctors then Pass
    else if !AcceptsLevelArguments(ctors[id]) then Fail(ConstructorArgumentMismatch)
    else if !IsStaticKind(ctors[id].kind) then Pass
    else if !(0 <= x < w && 0 <= y < h) then Fail(IndexOutOfRange)
    else if cell != EmptyCell then Fail(CellOccupied)
    else Pass
  }

  /** What processing the token `t` returns once the placements `ps` of
      the tokens before it are made, on a `w` by `h` grid whose cells had
      the kinds `kinds0`: the Convert.ToInt32 error, nothing for a 0, or
      MakeEntity's outcome on the cell as the earlier placements left it. */
  function TokenOutcome(t: Token, ctors: map<int, ConstructorDecl>, ps: seq<Placement>,
                        kinds0: (int, int) -> CellKind, w: int, h: int): Outcome<LevelError> {
    match ParseInt32(t.text)
    case Failure(e) => Fail(e)
    case Success(id) =>
      if id == 0 then Pass
      else PlaceOutcome(ctors, id, t.x, t.y, w, h, PlacedKind(ps, ctors, t.x, t.y, kinds0(t.x, t.y)))
  }

  /** The outcome of the CSV pass over the first `n` tokens `ts`: Pass when
      every one of them passed, otherwise the outcome of the first token
      that failed. */
  function ScanOutcome(ts: seq<Token>, n: nat, ctors: map<int, ConstructorDecl>,
                       kinds0: (int, int) -> CellKind, w: int, h: int): Outcome<LevelError>
    requires n <= |ts|
  {
    if n == 0 then Pass
    else match ScanOutcome(ts, n - 1, ctors, kinds0, w, h)
      case Fail(e) => Fail(e)
      case Pass =>
        match PlacementsUpTo(ts, n - 1)
        case Failure(e) => Fail(e)
        case Success(ps) => TokenOutcome(ts[n - 1], ctors, ps, kinds0, w, h)
  }

  /** A pass over tokens that all passed goes on to the next token, with
      the placements the earlier ones made. */
  lemma ScanStep(ts: seq<Token>, n: nat, ps: seq<Placement>, ctors: map<int, ConstructorDecl>,
                 kinds0: (int, int) -> CellKind, w: int, h: int)
    requires n < |ts| && ScanOutcome(ts, n, ctors, kinds0, w, h) == Pass && PlacementsUpTo(ts, n) == Success(ps)
    ensures ScanOutcome(ts, n + 1, ctors, kinds0, w, h) == TokenOutcome(ts[n], ctors, ps, kinds0, w, h)
  {
  }

  /** Whether MakeEntity passes for each of the placements `ps` in turn,
      on a `w` by `h` grid whose cells had the kinds `kinds0`. */
  predicate Placeable(ps: seq<Placement>, ctors: map<int, ConstructorDecl>, kinds0: (int, int) -> CellKind, w: int, h: int) {
    || ps == []
    || (&& Placeable(ps[..|ps| - 1], ctors, kinds0, w, h)
        && var p := ps[|ps| - 1];
           PlaceOutcome(ctors, p.id, p.x, p.y, w, h, PlacedKind(ps[..|ps| - 1], ctors, p.x, p.y, kinds0(p.x, p.y))) == Pass)
  }

  lemma PlaceableSnoc(ps: seq<Placement>, p: Placement, ctors: map<int, ConstructorDecl>,
                      kinds0: (int, int) -> CellKind, w: int, h: int)
    ensures Placeable(ps + [p], ctors, kinds0, w, h) <==>
              && Placeable(ps, ctors, kinds0, w, h)
              && PlaceOutcome(ctors, p.id, p.x, p.y, w, h, PlacedKind(ps, ctors, p.x, p.y, kinds0(p.x, p.y))) == Pass
  {
    assert (ps + [p])[..|ps|] == ps;
  }

  /** The placement `p`, passing on the cell kind `kind` which the
      placeable placements `ps` left at its cell, extends them. */
  lemma PlaceableOneMore(ps: seq<Placement>, p: Placement, ctors: map<int, ConstructorDecl>,
                         kinds0: (int, int) -> CellKind, w: int, h: int, kind: CellKind)
    requires Placeable(ps, ctors, kinds0, w, h) && kind == PlacedKind(ps, ctors, p.x, p.y, kinds0(p.x, p.y))
    requires PlaceOutcome(ctors, p.id, p.x, p.y, w, h, kind) == Pass
    ensures Placeable(ps + [p], ctors, kinds0, w, h)
  {
    PlaceableSnoc(ps, p, ctors, kinds0, w, h);
  }

  /** The placements of the tokens before a placeable token's are
      placeable, and that token's own placement, if it makes one, passes
      on the cells they left. */
  lemma PlaceableFront(ts: seq<Token>, n: nat, ps: seq<Placement>, ctors: map<int, ConstructorDecl>,
                       kinds0: (int, int) -> CellKind, w: int, h: int) returns (front: seq<Placement>, id: int)
    requires 0 < n <= |ts| && PlacementsUpTo(ts, n) == Success(ps) && Placeable(ps, ctors, kinds0, w, h)
    ensures PlacementsUpTo(ts, n - 1) == Success(front) && Placeable(front, ctors, kinds0, w, h)
    ensures ParseInt32(ts[n - 1].text) == Success(id)
    ensures id != 0 ==>
              PlaceOutcome(ctors, id, ts[n - 1].x, ts[n - 1].y, w, h,
                           PlacedKind(front, ctors, ts[n - 1].x, ts[n - 1].y, kinds0(ts[n - 1].x, ts[n - 1].y))) == Pass
  {
    front, id := PlacementsFront(ts, n, ps);
    if id != 0 {
      PlaceableSnoc(front, Placement(id, ts[n - 1].x, ts[n - 1].y), ctors, kinds0, w, h);
    }
  }

  /** One token more keeps the pass passing when the token parses and,
      unless it is 0, its placement passes on the cells the tokens before
      it left. */
  lemma ScanStepPasses(ts: seq<Token>, k: nat, front: seq<Placement>, id: int, ctors: map<int, ConstructorDecl>,
                       kinds0: (int, int) -> CellKind, w: int, h: int)
    requires k < |ts| && ScanOutcome(ts, k, ctors, kinds0, w, h) == Pass && PlacementsUpTo(ts, k) == Success(front)
    requires ParseInt32(ts[k].text) == Success(id)
    requires id != 0 ==> PlaceOutcome(ctors, id, ts[k].x, ts[k].y, w, h, PlacedKind(front, ctors, ts[k].x, ts[k].y, kinds0(ts[k].x, ts[k].y))) == Pass
    ensures ScanOutcome(ts, k + 1, ctors, kinds0, w, h) == Pass
  {
  }

  /** The pass over tokens whose placements can all be made passes. */
  lemma {:induction false} ScanPassesPlaceable(ts: seq<Token>, n: nat, ps: seq<Placement>, ctors: map<int, ConstructorDecl>,
                                               kinds0: (int, int) -> CellKind, w: int, h: int)
    requires n <= |ts| && PlacementsUpTo(ts, n) == Success(ps) && Placeable(ps, ctors, kinds0, w, h)
    ensures ScanOutcome(ts, n, ctors, kinds0, w, h) == Pass
  {
    if n > 0 {
      var front, id := PlaceableFront(ts, n, ps, ctors, kinds0, w, h);
      ScanPassesPlaceable(ts, n - 1, front, ctors, kinds0, w, h);
      ScanStepPasses(ts, n - 1, front, id, ctors, kinds0, w, h);
    }
  }

  /** Once a token has failed, the pass keeps its error: later tokens are
      never processed. */
  lemma {:induction false} ScanFailureSticks(ts: seq<Token>, n: nat, m: nat, ctors: map<int, ConstructorDecl>,
                                             kinds0: (int, int) -> CellKind, w: int, h: int)
    requires n <= m <= |ts| && ScanOutcome(ts, n, ctors, kinds0, w, h).Fail?
    ensures ScanOutcome(ts, m, ctors, kinds0, w, h) == ScanOutcome(ts, n, ctors, kinds0, w, h)
  {
    if n < m {
      ScanFailureSticks(ts, n, m - 1, ctors, kinds0, w, h);
    }
  }

  /** After `n` placeable tokens, the pass over one token more has that
      token's outcome. */
  lemma ScanNext(ts: seq<Token>, n: nat, ps: seq<Placement>, ctors: map<int, ConstructorDecl>,
                 kinds0: (int, int) -> CellKind, w: int, h: int)
    requires n < |ts| && PlacementsUpTo(ts, n) == Success(ps) && Placeable(ps, ctors, kinds0, w, h)
    ensures ScanOutcome(ts, n + 1, ctors, kinds0, w, h) == TokenOutcome(ts[n], ctors, ps, kinds0, w, h)
  {
    ScanPassesPlaceable(ts, n, ps, ctors, kinds0, w, h);
  }

  /** A pass whose first `n` tokens are placeable and whose next token
      fails keeps that token's outcome over any longer prefix. */
  lemma {:induction false} ScanFailsAt(ts: seq<Token>, n: nat, m: nat, ps: seq<Placement>, ctors: map<int, ConstructorDecl>,
                                       kinds0: (int, int) -> CellKind, w: int, h: int)
    requires n < m <= |ts| && PlacementsUpTo(ts, n) == Success(ps) && Placeable(ps, ctors, kinds0, w, h)
    requires TokenOutcome(ts[n], ctors, ps, kinds0, w, h).Fail?
    ensures ScanOutcome(ts, m, ctors, kinds0, w, h) == TokenOutcome(ts[n], ctors, ps, kinds0, w, h)
  {
    if m == n + 1 {
      ScanNext(ts, n, ps, ctors, kinds0, w, h);
    } else {
      ScanFailsAt(ts, n, m - 1, ps, ctors, kinds0, w, h);
    }
  }

  /** A layer whose MakeEntity calls all go through: every registered
      id's constructor takes the level, every static placement lies inside
      the `w` by `h` grid on a cell that was empty in `kinds0`, and no two
      static placements share a cell. */
  predicate WellFormedLayer(ps: seq<Placement>, ctors: map<int, ConstructorDecl>,
                            kinds0: (int, int) -> CellKind, w: int, h: int) {
    && (forall i :: 0 <= i < |ps| && ps[i].id in ctors ==> AcceptsLevelArguments(ctors[ps[i].id]))
    && (forall i :: 0 <= i < |ps| && StaticAt(ps[i], ctors, ps[i].x, ps[i].y) ==>
          0 <= ps[i].x < w && 0 <= ps[i].y < h && kinds0(ps[i].x, ps[i].y) == EmptyCell)
    && (forall i, j :: 0 <= i < j < |ps| && StaticAt(ps[i], ctors, ps[j].x, ps[j].y) ==>
          !StaticAt(ps[j], ctors, ps[j].x, ps[j].y))
  }

  /** A cell is empty once the placements `ps` are made exactly when it
      was empty before and none of them puts a static entity there. */
  lemma {:induction false} PlacedKindEmpty(ps: seq<Placement>, ctors: map<int, ConstructorDecl>, x: int, y: int,
                                           prior: CellKind)
    ensures PlacedKind(ps, ctors, x, y, prior) == EmptyCell <==>
              prior == EmptyCell && forall i :: 0 <= i < |ps| ==> !StaticAt(ps[i], ctors, x, y)
  {
    if ps != [] {
      var front := ps[..|ps| - 1];
      PlacedKindEmpty(front, ctors, x, y, prior);
      assert forall i :: 0 <= i < |front| ==> front[i] == ps[i];
    }
  }

  /** One placement more keeps a layer well formed exactly when its
      constructor takes the level and, if it is static, it lies inside the
      grid on a cell that was empty and that no earlier static placement
      took. */
  lemma WellFormedLayerSnoc(ps: seq<Placement>, p: Placement, ctors: map<int, ConstructorDecl>,
                            kinds0: (int, int) -> CellKind, w: int, h: int)
    ensures WellFormedLayer(ps + [p], ctors, kinds0, w, h) <==>
              && WellFormedLayer(ps, ctors, kinds0, w, h)
              && (p.id in ctors ==> AcceptsLevelArguments(ctors[p.id]))
              && (StaticAt(p, ctors, p.x, p.y) ==>
                    && 0 <= p.x < w && 0 <= p.y < h && kinds0(p.x, p.y) == EmptyCell
                    && forall i :: 0 <= i < |ps| ==> !StaticAt(ps[i], ctors, p.x, p.y))
  {
    var qs := ps + [p];
    assert forall i :: 0 <= i < |ps| ==> qs[i] == ps[i];
    assert qs[|ps|] == p;
  }

  /** The placements are placeable exactly when they form a well-formed
      layer. */
  lemma {:induction false} PlaceableIffWellFormed(ps: seq<Placement>, ctors: map<int, ConstructorDecl>,
                                                  kinds0: (int, int) -> CellKind, w: int, h: int)
    ensures Placeable(ps, ctors, kinds0, w, h) <==> WellFormedLayer(ps, ctors, kinds0, w, h)
  {
    if ps != [] {
      var front, p := ps[..|ps| - 1], ps[|ps| - 1];
      assert ps == front + [p];
      PlaceableIffWellFormed(front, ctors, kinds0, w, h);
      PlaceableSnoc(front, p, ctors, kinds0, w, h);
      WellFormedLayerSnoc(front, p, ctors, kinds0, w, h);
      PlacedKindEmpty(front, ctors, p.x, p.y, kinds0(p.x, p.y));
    }
  }

  /** A pass over tokens that all passed has parsed them, and their
      placements are placeable. */
  lemma {:induction false} ScanPassPlaceable(ts: seq<Token>, n: nat, ctors: map<int, ConstructorDecl>,
                                             kinds0: (int, int) -> CellKind, w: int, h: int)
    requires n <= |ts| && ScanOutcome(ts, n, ctors, kinds0, w, h) == Pass
    ensures PlacementsUpTo(ts, n).Success? && Placeable(PlacementsUpTo(ts, n).value, ctors, kinds0, w, h)
  {
    if n > 0 {
      ScanPassPlaceable(ts, n - 1, ctors, kinds0, w, h);
      var front := PlacementsUpTo(ts, n - 1).value;
      var id := ParseInt32(ts[n - 1].text).value;
      PlacementsStep(ts, n - 1, front, id);
      if id != 0 {
        PlaceableSnoc(front, Placement(id, ts[n - 1].x, ts[n - 1].y), ctors, kinds0, w, h);
      }
    }
  }

  /** The CSV pass over a layer passes exactly when every token parses and
      the layer's placements are well formed on the grid as it was. */
  lemma LayerPassesIffWellFormed(ts: seq<Token>, ctors: map<int, ConstructorDecl>,
                                 kinds0: (int, int) -> CellKind, w: int, h: int)
    ensures ScanOutcome(ts, |ts|, ctors, kinds0, w, h) == Pass <==>
              Placements(ts).Success? && WellFormedLayer(Placements(ts).value, ctors, kinds0, w, h)
  {
    if ScanOutcome(ts, |ts|, ctors, kinds0, w, h) == Pass {
      ScanPassPlaceable(ts, |ts|, ctors, kinds0, w, h);
      PlaceableIffWellFormed(Placements(ts).value, ctors, kinds0, w, h);
    } else if Placements(ts).Success? {
      PlaceableIffWellFormed(Placements(ts).value, ctors, kinds0, w, h);
      if WellFormedLayer(Placements(ts).value, ctors, kinds0, w, h) {
        ScanPassesPlaceable(ts, |ts|, Placements(ts).value, ctors, kinds0, w, h);
      }
    }
  }

  /** A wall or door in cell (x, y) is the one made for that cell: its
      TileX and TileY are x and y. (A tagging location's cells are tied
      to its extent instead.) */
  predicate MadeFor(s: StaticEntity, x: int, y: int) {
    match s
    case WallTile(w) => w.TileX == x && w.TileY == y
    case DoorTile(d) => d.TileX == x && d.TileY == y
    case TagTile(_) => true
  }

  /** `e` is what the constructor call (level, x, y) makes: a wall, door,
      Beer or Player at (x, y), or a tagging location covering just that
      tile. */
  ghost predicate MadeAt(e: Entity, x: int, y: int)
    reads if e.Static? && e.tile.TagTile? then {e.tile.tag} else {}
  {
    match e
    case Static(TagTile(t)) => t.Extent() == Adjacency.Extent(x, y, 1, 1)
    case Static(s) => MadeFor(s, x, y)
    case Mobile(a) => a.TileX == x && a.TileY == y
  }

  /** Whether the level has recorded the object behind an entity. */
  predicate KnownTo(e: Entity, walls: set<Wall>, doors: set<Door>, tags: set<TaggingLocation>) {
    match e
    case Static(WallTile(w)) => w in walls
    case Static(DoorTile(d)) => d in doors
    case Static(TagTile(t)) => t in tags
    case Mobile(_) => true
  }

  /** The registry holds no tile entity, listed or queued. */
  ghost predicate HoldsNoTiles(reg: EntityRegistry<Entity>)
    reads reg
  {
    && (forall e :: e in reg.entities ==> !e.Static?)
    && (forall i :: 0 <= i < |reg.pendingEntityOperations| ==> !reg.pendingEntityOperations[i].Entity.Static?)
  }

  // ---------------------------------------------------------------------
  // Wall

  class Wall {
    /** The level whose tile grid made this wall. */
    ghost const owner: Level
    const TileX: int
    const TileY: int
    var connectedLeft: bool
    var connectedRight: bool
    var connectedTop: bool
    var connectedBottom: bool
    var HorizontalDrawEnabled: bool
    var VerticalDrawEnabled: bool

    function Flags(): WallFlags
      reads this
    {
      WallFlags(connectedLeft, connectedRight, connectedTop, connectedBottom,
                HorizontalDrawEnabled, VerticalDrawEnabled)
    }

    /** Wall(level, x, y): unconnected until ComputeAdjacency. */
    constructor(level: Level, x: int, y: int)
      ensures owner == level && TileX == x && TileY == y
      ensures Flags() == WallFlagsFor(false, false, false, false)
    {
      owner := level;
      TileX := x;
      TileY := y;
      connectedLeft, connectedRight, connectedTop, connectedBottom := false, false, false, false;
      HorizontalDrawEnabled, VerticalDrawEnabled := false, false;
    }

    /** The four neighbours decide the flags; a horizontal segment is drawn
        towards a connected left or right neighbour, a vertical one towards
        a connected top or bottom neighbour. */
    method ComputeAdjacency(level: Level)
      modifies this
      ensures Flags() == WallFlagsFor(ConnectsWith(level.GetStaticEntityAt(TileX - 1, TileY)),
                                      ConnectsWith(level.GetStaticEntityAt(TileX + 1, TileY)),
                                      ConnectsWith(level.GetStaticEntityAt(TileX, TileY - 1)),
                                      ConnectsWith(level.GetStaticEntityAt(TileX, TileY + 1)))
    {
      connectedLeft := ConnectsWith(level.GetStaticEntityAt(TileX - 1, TileY));
      connectedRight := ConnectsWith(level.GetStaticEntityAt(TileX + 1, TileY));
      connectedTop := ConnectsWith(level.GetStaticEntityAt(TileX, TileY - 1));
      connectedBottom := ConnectsWith(level.GetStaticEntityAt(TileX, TileY + 1));

      HorizontalDrawEnabled := false;
      if connectedLeft {
        HorizontalDrawEnabled := true;
      }
      if connectedRight {
        HorizontalDrawEnabled := true;
      }

      VerticalDrawEnabled := false;
      if connectedTop {
        VerticalDrawEnabled := true;
      }
      if connectedBottom {
        VerticalDrawEnabled := true;
      }
    }
  }

  // ---------------------------------------------------------------------
  // Door

  class Door {
    /** The level whose tile grid made this door. */
    ghost const owner: Level
    const TileX: int
    const TileY: int
    var attachLeft: bool
    var attachRight: bool
    var attachUp: bool
    var attachDown: bool

    /** The Debug.Assert of ComputeTransforms: some side is chosen. */
    predicate Attached()
      reads this
    {
      attachLeft || attachRight || attachUp || attachDown
    }

    /** Door(game, x, y): attached on the left until ComputeAdjacency. */
    constructor(ghost level: Level, x: int, y: int)
      ensures owner == level && TileX == x && TileY == y
      ensures attachLeft && !attachRight && !attachUp && !attachDown
      ensures Attached()
    {
      owner := level;
      TileX := x;
      TileY := y;
      attachLeft := true;
      attachRight, attachUp, attachDown := false, false, false;
    }

    /** Attaches to the first wall among left, right, up, down, or to the
        left when no neighbour is a wall; exactly one flag ends up set, so
        ComputeTransforms' assertion holds. */
    method ComputeAdjacency(level: Level)
      modifies this
      ensures var side := DoorSide(IsWall(level.GetStaticEntityAt(TileX - 1, TileY)),
                                   IsWall(level.GetStaticEntityAt(TileX + 1, TileY)),
                                   IsWall(level.GetStaticEntityAt(TileX, TileY - 1)),
                                   IsWall(level.GetStaticEntityAt(TileX, TileY + 1)));
              && attachLeft == (side == AttachLeft) && attachRight == (side == AttachRight)
              && attachUp == (side == AttachUp) && attachDown == (side == AttachDown)
      ensures ExactlyOne(attachLeft, attachRight, attachUp, attachDown) && Attached()
    {
      attachLeft, attachRight, attachUp, attachDown := false, false, false, false;
      if IsWall(level.GetStaticEntityAt(TileX - 1, TileY)) {
        attachLeft := true;
      } else if IsWall(level.GetStaticEntityAt(TileX + 1, TileY)) {
        attachRight := true;
      } else if IsWall(level.GetStaticEntityAt(TileX, TileY - 1)) {
        attachUp := true;
      } else if IsWall(level.GetStaticEntityAt(TileX, TileY + 1)) {
        attachDown := true;
      } else {
        attachLeft := true;
      }
    }
  }

  // ---------------------------------------------------------------------
  // Tagging location

  class TaggingLocation {
    const level: Level
    var tileX: int
    var tileY: int
    var tileWidth: int
    var tileHeight: int
    /** Set when another tagging location has absorbed this one. */
    var wasAbsorbed: bool
    var wallDirection: WallDirection

    function Extent(): Extent
      reads this`tileX, this`tileY, this`tileWidth, this`tileHeight
    {
      Adjacency.Extent(tileX, tileY, tileWidth, tileHeight)
    }

    /** Both sides at least one tile and one side exactly one. */
    ghost predicate Shaped()
      reads this`tileX, this`tileY, this`tileWidth, this`tileHeight
    {
      Extent().tileWidth >= 1 && Extent().tileHeight >= 1 && Extent().IsStrip()
    }

    /** entityLeft, entityRight, entityUp and entityDown. */
    function Neighbour(d: MergeDirection): (c: Option<StaticEntity>)
      reads this`tileX, this`tileY, this`tileWidth, this`tileHeight, level.staticTileEntities
      ensures c.Some? ==> level.InRange(NeighbourCell(Extent(), d).0, NeighbourCell(Extent(), d).1)
      ensures c.Some? ==> !Extent().Covers(NeighbourCell(Extent(), d).0, NeighbourCell(Extent(), d).1)
    {
      var c := NeighbourCell(Extent(), d);
      level.GetStaticEntityAt(c.0, c.1)
    }

    /** The neighbour MergeWithOtherTaggingLocations would absorb next. */
    ghost function Candidate(): Option<MergeDirection>
      reads this`tileX, this`tileY, this`tileWidth, this`tileHeight, level.staticTileEntities
    {
      MergeCandidate(Extent(),
                     IsTaggingLocation(Neighbour(MergeLeft)), IsTaggingLocation(Neighbour(MergeRight)),
                     IsTaggingLocation(Neighbour(MergeUp)), IsTaggingLocation(Neighbour(MergeDown)))
    }

    /** The wall direction the current grid gives, keeping `previous` when
        no wall qualifies. */
    ghost function FacingWall(previous: WallDirection): WallDirection
      reads this`tileX, this`tileY, this`tileWidth, this`tileHeight, level.staticTileEntities
    {
      ChooseWallDirection(previous, Extent(),
                          IsWall(Neighbour(MergeUp)), IsWall(Neighbour(MergeDown)),
                          IsWall(Neighbour(MergeLeft)), IsWall(Neighbour(MergeRight)))
    }

    /** What ComputeAdjacency leaves behind: absorbed, or nothing left to
        merge and facing the wall the grid gives. */
    ghost predicate Settled()
      reads this, level.staticTileEntities
    {
      wasAbsorbed || (Candidate().None? && wallDirection == FacingWall(wallDirection))
    }

    /** TaggingLocation(level, x, y): a single tile facing no wall yet. */
    constructor(level: Level, x: int, y: int)
      ensures this.level == level
      ensures Extent() == Adjacency.Extent(x, y, 1, 1) && !wasAbsorbed && wallDirection == Unknown
    {
      this.level := level;
      tileX := x;
      tileY := y;
      tileWidth := 1;
      tileHeight := 1;
      wasAbsorbed := false;
      wallDirection := Unknown;
    }

    /** Setting wasAbsorbed, which nothing but Settled reads. */
    method MarkAbsorbed()
      modifies this`wasAbsorbed
      ensures wasAbsorbed
    {
      wasAbsorbed := true;
    }

    /** The state after this location absorbed `other`, the single tile in
        direction `d`: the extent grew by that tile, its cell now holds this
        location, no other cell changed, and `other` is marked absorbed and
        its removal requested. */
    twostate predicate CombinedWith(other: TaggingLocation, d: MergeDirection)
      reads this, other, level`Tags, level.Tags, level.staticTileEntities, level.ParentGame
    {
      var n := NeighbourCell(old(Extent()), d);
      && other != this && other in level.Tags
      && old(other.Extent()) == Adjacency.Extent(n.0, n.1, 1, 1)
      && Combine(old(Extent()), old(other.Extent())) == Success(Extent())
      && old(level.GetStaticEntityAt(n.0, n.1)) == Some(TagTile(other))
      && level.GetStaticEntityAt(n.0, n.1) == Some(TagTile(this))
      && (forall x, y :: (x, y) != n ==> level.GetStaticEntityAt(x, y) == old(level.GetStaticEntityAt(x, y)))
      && other.wasAbsorbed
      && level.Tags == old(level.Tags)
      && (forall t :: t in old(level.Tags) && t != other ==> t.wasAbsorbed == old(t.wasAbsorbed))
      && level.ParentGame.Snapshot() ==
           Request(old(level.ParentGame.Snapshot()), EntityOperation(false, Static(TagTile(other))),
                   level.ParentGame.RenderOrder, level.ParentGame.IsPlayer)
    }

    /** Nothing the merge step can change has changed. */
    twostate predicate Untouched()
      reads this, level`Tags, level.Tags, level.staticTileEntities, level.ParentGame
    {
      && Extent() == old(Extent())
      && unchanged(level.staticTileEntities) && unchanged(level.ParentGame)
      && level.Tags == old(level.Tags)
      && (forall t :: t in old(level.Tags) ==> t.wasAbsorbed == old(t.wasAbsorbed))
    }

    /** The extent arithmetic of CombineWith for the single tile `other`
        next to this strip in direction `d`: the side they share grows by
        one tile and the anchor moves to the minimum; the second check of
        CombineWith (both sides above 1) cannot fire. */
    method GrowOver(other: TaggingLocation, ghost d: MergeDirection)
      requires Shaped() && other != this
      requires d in {MergeLeft, MergeRight} ==> Extent().IsHorizontal()
      requires d in {MergeUp, MergeDown} ==> Extent().IsVertical()
      requires other.Extent() == Adjacency.Extent(NeighbourCell(Extent(), d).0, NeighbourCell(Extent(), d).1, 1, 1)
      modifies this`tileX, this`tileY, this`tileWidth, this`tileHeight
      ensures Combine(old(Extent()), other.Extent()) == Success(Extent())
      ensures Shaped() && Extent().Covers(other.tileX, other.tileY)
      ensures forall x, y :: Extent().Covers(x, y) <==> old(Extent()).Covers(x, y) || (x == other.tileX && y == other.tileY)
    {
      CombineChosenNeighbour(Extent(), d, other.Extent());
      if tileX == other.tileX {
        tileHeight := tileHeight + other.tileHeight;
      } else {
        tileWidth := tileWidth + other.tileWidth;
      }
      if tileWidth > 1 && tileHeight > 1 {
        assert false;
        return;
      }
      tileX := Min(tileX, other.tileX);
      tileY := Min(tileY, other.tileY);
    }

    /** CombineWith(other) for the neighbour in direction `d` that the merge
        rules chose. A neighbour that is not a single tile fails the
        Debug.Assert; on a valid level the InvalidOperationException for a
        location growing along both axes cannot occur. */
    method CombineWith(other: TaggingLocation, ghost d: MergeDirection) returns (r: Outcome<LevelError>)
      requires level.Valid() && this in level.Tags
      requires d in {MergeLeft, MergeRight} ==> Extent().IsHorizontal()
      requires d in {MergeUp, MergeDown} ==> Extent().IsVertical()
      requires Neighbour(d) == Some(TagTile(other))
      modifies this`tileX, this`tileY, this`tileWidth, this`tileHeight, other`wasAbsorbed
      modifies level.staticTileEntities, level.ParentGame
      ensures level.Valid()
      ensures r.Fail? <==> !(old(other.tileWidth) == 1 && old(other.tileHeight) == 1)
      ensures r.Fail? ==> r.error == CombineFailed(OtherNotSingleTile) && Untouched()
      ensures r.Pass? ==> CombinedWith(other, d)
      ensures forall x, y :: KindOf(level.GetStaticEntityAt(x, y)) == KindOf(old(level.GetStaticEntityAt(x, y)))
    {
      ghost var e0 := Extent();
      ghost var n := NeighbourCell(e0, d);
      assert level.GetStaticEntityAt(n.0, n.1) == Some(TagTile(other));
      assert other in level.Tags && other.Extent().Covers(n.0, n.1);
      if !(other.tileWidth == 1 && other.tileHeight == 1) {
        return Fail(CombineFailed(OtherNotSingleTile));
      }
      Absorb(other, d);
      r := Pass;
    }

    /** The rest of CombineWith once `other` is known to be a single tile:
        grow over its cell, take the cell over, remove `other` from the
        registry and mark it absorbed. */
    method Absorb(other: TaggingLocation, ghost d: MergeDirection)
      requires level.Valid() && this in level.Tags
      requires d in {MergeLeft, MergeRight} ==> Extent().IsHorizontal()
      requires d in {MergeUp, MergeDown} ==> Extent().IsVertical()
      requires Neighbour(d) == Some(TagTile(other))
      requires other.tileWidth == 1 && other.tileHeight == 1
      modifies this`tileX, this`tileY, this`tileWidth, this`tileHeight, other`wasAbsorbed
      modifies level.staticTileEntities, level.ParentGame
      ensures level.Valid()
      ensures CombinedWith(other, d)
    {
      GrowAndClaim(other, d);
      level.RemoveAbsorbed(other);
      other.MarkAbsorbed();
    }

    /** The grid and extent half of Absorb: grow over the cell of `other`
        and store this location in it. */
    method GrowAndClaim(other: TaggingLocation, ghost d: MergeDirection)
      requires level.Valid() && this in level.Tags
      requires d in {MergeLeft, MergeRight} ==> Extent().IsHorizontal()
      requires d in {MergeUp, MergeDown} ==> Extent().IsVertical()
      requires Neighbour(d) == Some(TagTile(other))
      requires other.tileWidth == 1 && other.tileHeight == 1
      modifies this`tileX, this`tileY, this`tileWidth, this`tileHeight, level.staticTileEntities
      ensures level.Valid() && other != this && other in level.Tags
      ensures var n := NeighbourCell(old(Extent()), d);
              && other.Extent() == Adjacency.Extent(n.0, n.1, 1, 1)
              && Combine(old(Extent()), other.Extent()) == Success(Extent())
              && old(level.GetStaticEntityAt(n.0, n.1)) == Some(TagTile(other))
              && level.GetStaticEntityAt(n.0, n.1) == Some(TagTile(this))
              && (forall x, y :: (x, y) != n ==> level.GetStaticEntityAt(x, y) == old(level.GetStaticEntityAt(x, y)))
    {
      ghost var e0 := Extent();
      ghost var n := NeighbourCell(e0, d);
      assert level.GetStaticEntityAt(n.0, n.1) == Some(TagTile(other));
      assert other in level.Tags && other.Extent().Covers(n.0, n.1);
      assert other.Extent() == Adjacency.Extent(n.0, n.1, 1, 1);
      assert !e0.Covers(n.0, n.1);
      GrowOver(other, d);
      var _ := level.ClaimCell(this, other.tileX, other.tileY);
    }

    /** The tests of MergeWithOtherTaggingLocations, in order: the left,
        then the right neighbour of a horizontal location, then the upper,
        then the lower neighbour of a vertical one. */
    method ChooseMerge() returns (found: bool, d: MergeDirection, target: TaggingLocation)
      ensures found <==> Candidate().Some?
      ensures found ==> d == Candidate().value && Neighbour(d) == Some(TagTile(target))
      ensures found && d in {MergeLeft, MergeRight} ==> Extent().IsHorizontal()
      ensures found && d in {MergeUp, MergeDown} ==> Extent().IsVertical()
    {
      found, d, target := true, MergeLeft, this;
      if Extent().IsHorizontal() && IsTaggingLocation(Neighbour(MergeLeft)) {
        d, target := MergeLeft, Neighbour(MergeLeft).value.tag;
      } else if Extent().IsHorizontal() && IsTaggingLocation(Neighbour(MergeRight)) {
        d, target := MergeRight, Neighbour(MergeRight).value.tag;
      } else if Extent().IsVertical() && IsTaggingLocation(Neighbour(MergeUp)) {
        d, target := MergeUp, Neighbour(MergeUp).value.tag;
      } else if Extent().IsVertical() && IsTaggingLocation(Neighbour(MergeDown)) {
        d, target := MergeDown, Neighbour(MergeDown).value.tag;
      } else {
        found := false;
      }
    }

    /** One MergeWithOtherTaggingLocations: absorbs the chosen neighbour if
        there is one and says whether it did. */
    method MergeWithOtherTaggingLocations() returns (merged: bool, r: Outcome<LevelError>,
                                                     ghost d: MergeDirection, ghost other: TaggingLocation)
      requires level.Valid() && this in level.Tags
      modifies this`tileX, this`tileY, this`tileWidth, this`tileHeight, level.Tags`wasAbsorbed
      modifies level.staticTileEntities, level.ParentGame
      ensures level.Valid()
      ensures merged <==> old(Candidate()).Some?
      ensures !merged ==> r.Pass? && Untouched()
      ensures merged ==> d == old(Candidate()).value
      ensures old(allocated(other))
      ensures merged && r.Fail? ==> r.error == CombineFailed(OtherNotSingleTile) && Untouched()
      ensures merged && r.Pass? ==> CombinedWith(other, d)
      ensures forall x, y :: old(Extent()).Covers(x, y) ==> Extent().Covers(x, y)
      ensures forall x, y :: KindOf(level.GetStaticEntityAt(x, y)) == KindOf(old(level.GetStaticEntityAt(x, y)))
      ensures forall t :: t in old(level.Tags) && t != other ==> t.wasAbsorbed == old(t.wasAbsorbed)
      ensures forall t :: t in level.Tags && old(t.wasAbsorbed) ==> t.wasAbsorbed
      ensures merged && r.Pass? ==>
                && other in level.Tags && other != this && other.wasAbsorbed
                && level.CellsNotHolding(this) < old(level.CellsNotHolding(this))
                && level.ParentGame.Snapshot() ==
                     Request(old(level.ParentGame.Snapshot()), EntityOperation(false, Static(TagTile(other))),
                             level.ParentGame.RenderOrder, level.ParentGame.IsPlayer)
    {
      ghost var e0 := Extent();
      ghost var cells := level.CellsNotHolding(this);
      var found, target;
      found, d, target := ChooseMerge();
      if !found {
        return false, Pass, d, this;
      }
      other := target;
      r := CombineWith(target, d);
      if r.Pass? {
        ghost var n := NeighbourCell(e0, d);
        CombineChosenNeighbour(e0, d, Adjacency.Extent(n.0, n.1, 1, 1));
        assert n in cells && n !in level.CellsNotHolding(this);
        assert level.CellsNotHolding(this) <= cells;
      }
      merged := true;
    }

    /** The end of ComputeAdjacency: a horizontal location looks for a wall
        above, then below; a vertical one then looks left, then right. */
    method FaceWall()
      modifies this`wallDirection
      ensures wallDirection == FacingWall(old(wallDirection))
    {
      if Extent().IsHorizontal() {
        if IsWall(Neighbour(MergeUp)) {
          wallDirection := Up;
        } else if IsWall(Neighbour(MergeDown)) {
          wallDirection := Down;
        }
      }
      if Extent().IsVertical() {
        if IsWall(Neighbour(MergeLeft)) {
          wallDirection := Left;
        } else if IsWall(Neighbour(MergeRight)) {
          wallDirection := Right;
        }
      }
    }

    /** ComputeAdjacency: unless absorbed, absorb neighbours until none is
        left to merge, then pick the wall direction. */
    method ComputeAdjacency() returns (r: Outcome<LevelError>, ghost absorbed: seq<TaggingLocation>)
      requires level.Valid() && this in level.Tags
      modifies this`tileX, this`tileY, this`tileWidth, this`tileHeight, this`wallDirection
      modifies level.Tags`wasAbsorbed, level.staticTileEntities, level.ParentGame
      ensures level.Valid()
      ensures wasAbsorbed == old(wasAbsorbed)
      ensures old(wasAbsorbed) ==>
                r.Pass? && absorbed == [] && wallDirection == old(wallDirection) && Untouched()
      ensures r.Fail? ==> r.error == CombineFailed(OtherNotSingleTile)
      ensures r.Pass? ==> Settled()
      ensures r.Pass? && !old(wasAbsorbed) ==> wallDirection == FacingWall(old(wallDirection))
      ensures forall x, y :: old(Extent()).Covers(x, y) ==> Extent().Covers(x, y)
      ensures forall x, y :: KindOf(level.GetStaticEntityAt(x, y)) == KindOf(old(level.GetStaticEntityAt(x, y)))
      ensures forall t :: t in level.Tags && old(t.wasAbsorbed) ==> t.wasAbsorbed
      ensures forall t :: t in absorbed ==> t in level.Tags && t.wasAbsorbed && t != this
      ensures level.ParentGame.Snapshot() ==
                RequestAll(old(level.ParentGame.Snapshot()), Removals(absorbed),
                           level.ParentGame.RenderOrder, level.ParentGame.IsPlayer)
    {
      absorbed := [];
      if wasAbsorbed {
        return Pass, absorbed;
      }
      r, absorbed := AbsorbNeighbours();
      if r.Fail? {
        return;
      }
      FaceWall();
    }

    /** The merge loop of ComputeAdjacency: merge with a neighbour until
        MergeWithOtherTaggingLocations finds none. */
    method AbsorbNeighbours() returns (r: Outcome<LevelError>, ghost absorbed: seq<TaggingLocation>)
      requires level.Valid() && this in level.Tags && !wasAbsorbed
      modifies this`tileX, this`tileY, this`tileWidth, this`tileHeight
      modifies level.Tags`wasAbsorbed, level.staticTileEntities, level.ParentGame
      ensures level.Valid() && !wasAbsorbed
      ensures r.Fail? ==> r.error == CombineFailed(OtherNotSingleTile)
      ensures r.Pass? ==> Candidate().None?
      ensures forall x, y :: old(Extent()).Covers(x, y) ==> Extent().Covers(x, y)
      ensures forall x, y :: KindOf(level.GetStaticEntityAt(x, y)) == KindOf(old(level.GetStaticEntityAt(x, y)))
      ensures forall t :: t in level.Tags && old(t.wasAbsorbed) ==> t.wasAbsorbed
      ensures forall t :: t in absorbed ==> t in level.Tags && t.wasAbsorbed && t != this
      ensures level.ParentGame.Snapshot() ==
                RequestAll(old(level.ParentGame.Snapshot()), Removals(absorbed),
                           level.ParentGame.RenderOrder, level.ParentGame.IsPlayer)
    {
      absorbed := [];
      ghost var e0 := Extent();
      var merging := true;
      while merging
        invariant level.Valid() && this in level.Tags && !wasAbsorbed
        invariant forall x, y :: e0.Covers(x, y) ==> Extent().Covers(x, y)
        invariant forall x, y :: KindOf(level.GetStaticEntityAt(x, y)) == KindOf(old(level.GetStaticEntityAt(x, y)))
        invariant forall t :: t in level.Tags && old(t.wasAbsorbed) ==> t.wasAbsorbed
        invariant forall t :: t in absorbed ==> t in level.Tags && t.wasAbsorbed && t != this
        invariant level.ParentGame.Snapshot() ==
                    RequestAll(old(level.ParentGame.Snapshot()), Removals(absorbed),
                               level.ParentGame.RenderOrder, level.ParentGame.IsPlayer)
        invariant !merging ==> Candidate().None?
        decreases level.CellsNotHolding(this), merging
      {
        var merged, step, d, other := MergeWithOtherTaggingLocations();
        if step.Fail? {
          return step, absorbed;
        }
        if merged {
          RequestRemoval(old(level.ParentGame.Snapshot()), absorbed, other,
                         level.ParentGame.RenderOrder, level.ParentGame.IsPlayer);
          absorbed := absorbed + [other];
        }
        merging := merged;
      }
      r := Pass;
    }
  }

  // ---------------------------------------------------------------------
  // Level

  class Level {
    const ParentGame: EntityRegistry<Entity>
    /** staticTileEntities: null is None. */
    const staticTileEntities: array2<Option<StaticEntity>>
    var decals: seq<GroundDecal>
    /** The walls, doors and tagging locations this level has made. */
    ghost var Walls: set<Wall>
    ghost var Doors: set<Door>
    ghost var Tags: set<TaggingLocation>

    function TileWidth(): nat { staticTileEntities.Length0 }
    function TileHeight(): nat { staticTileEntities.Length1 }

    predicate InRange(x: int, y: int) {
      0 <= x < TileWidth() && 0 <= y < TileHeight()
    }

    /** GetStaticEntityAt: None outside the grid. */
    function GetStaticEntityAt(x: int, y: int): (c: Option<StaticEntity>)
      reads staticTileEntities
      ensures c.Some? ==> InRange(x, y)
    {
      if x < 0 || y < 0 || x >= TileWidth() || y >= TileHeight() then None
      else staticTileEntities[x, y]
    }

    ghost predicate Known(e: Entity)
      reads this`Walls, this`Doors, this`Tags
    {
      KnownTo(e, Walls, Doors, Tags)
    }

    /** Every tile entity the registry lists or queues was made by this
        level. */
    ghost predicate AllKnown()
      reads this`Walls, this`Doors, this`Tags, ParentGame
    {
      && (forall e :: e in ParentGame.entities ==> Known(e))
      && (forall i :: 0 <= i < |ParentGame.pendingEntityOperations| ==>
            Known(ParentGame.pendingEntityOperations[i].Entity))
    }

    /** Every cell holding a tagging location lies inside its extent, and
        every cell holding a wall or door holds the one made for it. */
    ghost predicate Coherent()
      reads this`Walls, this`Doors, this`Tags, staticTileEntities, Tags`tileX, Tags`tileY, Tags`tileWidth, Tags`tileHeight
    {
      && (forall x, y :: IsTaggingLocation(GetStaticEntityAt(x, y)) ==>
            GetStaticEntityAt(x, y).value.tag in Tags && GetStaticEntityAt(x, y).value.tag.Extent().Covers(x, y))
      && (forall x, y :: GetStaticEntityAt(x, y).Some? ==> MadeFor(GetStaticEntityAt(x, y).value, x, y))
    }

    ghost predicate Valid()
      reads this`Walls, this`Doors, this`Tags, staticTileEntities, Tags`tileX, Tags`tileY, Tags`tileWidth, Tags`tileHeight, ParentGame
    {
      && ParentGame.Valid()
      && (forall t :: t in Tags ==> t.level == this && t.Shaped())
      && (forall w :: w in Walls ==> w.owner == this)
      && (forall d :: d in Doors ==> d.owner == this)
      && Coherent()
      && AllKnown()
    }

    /** The in-range cells that do not hold `t`. */
    ghost function CellsNotHolding(t: TaggingLocation): set<(int, int)>
      reads staticTileEntities
    {
      set x, y | 0 <= x < TileWidth() && 0 <= y < TileHeight() && GetStaticEntityAt(x, y) != Some(TagTile(t)) :: (x, y)
    }

    /** The objects this level made before are still recorded. */
    twostate predicate Grows()
      reads this`Walls, this`Doors, this`Tags
    {
      old(Walls) <= Walls && old(Doors) <= Doors && old(Tags) <= Tags
    }

    /** `other.Remove()` for a tagging location of this level. */
    method RemoveAbsorbed(other: TaggingLocation)
      requires Valid() && other in Tags
      modifies ParentGame
      ensures Valid()
      ensures ParentGame.Snapshot() ==
                Request(old(ParentGame.Snapshot()), EntityOperation(false, Static(TagTile(other))),
                        ParentGame.RenderOrder, ParentGame.IsPlayer)
    {
      ghost var st0 := ParentGame.State();
      ParentGame.RemoveEntity(Static(TagTile(other)));
      ApplyOpMembers(st0, EntityOperation(false, Static(TagTile(other))), ParentGame.RenderOrder, ParentGame.IsPlayer);
    }

    /** The part of the constructor before the tiles are read: an empty
        grid of the map's size. */
    constructor(parentGame: EntityRegistry<Entity>, tileWidth: nat, tileHeight: nat)
      requires parentGame.Valid() && HoldsNoTiles(parentGame)
      ensures Valid() && ParentGame == parentGame && fresh(staticTileEntities)
      ensures TileWidth() == tileWidth && TileHeight() == tileHeight
      ensures forall x, y :: GetStaticEntityAt(x, y).None?
      ensures decals == [] && Walls == {} && Doors == {} && Tags == {}
    {
      ParentGame := parentGame;
      staticTileEntities := new Option<StaticEntity>[tileWidth, tileHeight]((x, y) => None);
      decals := [];
      Walls, Doors, Tags := {}, {}, {};
    }

    /** SetStaticEntityAt: returns the previous occupant; writing outside
        the grid is an IndexOutOfRangeException. */
    method SetStaticEntityAt(newEntity: Option<StaticEntity>, x: int, y: int)
      returns (r: Result<Option<StaticEntity>, LevelError>)
      modifies staticTileEntities
      ensures !InRange(x, y) ==> r == Failure(IndexOutOfRange) && unchanged(staticTileEntities)
      ensures InRange(x, y) ==> r == Success(old(GetStaticEntityAt(x, y)))
      ensures InRange(x, y) ==> GetStaticEntityAt(x, y) == newEntity
      ensures forall i, j :: (i, j) != (x, y) ==> GetStaticEntityAt(i, j) == old(GetStaticEntityAt(i, j))
    {
      var oldEntity := GetStaticEntityAt(x, y);
      if !InRange(x, y) {
        return Failure(IndexOutOfRange);
      }
      staticTileEntities[x, y] := newEntity;
      r := Success(oldEntity);
    }

    /** The constructor call of MakeEntity: a new object of the given kind
        at (x, y), which a tile entity records with this level. */
    method Construct(kind: EntityKind, x: int, y: int) returns (e: Entity)
      requires Valid()
      modifies this`Walls, this`Doors, this`Tags
      ensures Valid() && Grows() && Known(e) && MadeAt(e, x, y)
      ensures KindOfEntity(e) == kind && (e.Static? <==> IsStaticKind(kind))
    {
      match kind {
        case WallKind =>
          var w := NewWall(x, y);
          e := Static(WallTile(w));
        case DoorKind =>
          var d := NewDoor(x, y);
          e := Static(DoorTile(d));
        case TaggingLocationKind =>
          var t := NewTaggingLocation(x, y);
          e := Static(TagTile(t));
        case BeerKind =>
          var a := new Actor(BeerKind, x, y);
          e := Mobile(a);
        case PlayerKind =>
          var a := new Actor(PlayerKind, x, y);
          e := Mobile(a);
      }
    }

    /** new Wall(this, x, y), recorded as made by this level. */
    method NewWall(x: int, y: int) returns (w: Wall)
      requires Valid()
      modifies this`Walls
      ensures Valid() && Walls == old(Walls) + {w}
      ensures w.TileX == x && w.TileY == y
    {
      w := new Wall(this, x, y);
      Walls := Walls + {w};
    }

    /** new Door(this, x, y), recorded as made by this level. */
    method NewDoor(x: int, y: int) returns (d: Door)
      requires Valid()
      modifies this`Doors
      ensures Valid() && Doors == old(Doors) + {d}
      ensures d.TileX == x && d.TileY == y
    {
      d := new Door(this, x, y);
      Doors := Doors + {d};
    }

    /** new TaggingLocation(this, x, y), recorded as made by this level:
        a single tile at (x, y). */
    method NewTaggingLocation(x: int, y: int) returns (t: TaggingLocation)
      requires Valid()
      modifies this`Tags
      ensures Valid() && Tags == old(Tags) + {t}
      ensures t.Extent() == Adjacency.Extent(x, y, 1, 1)
    {
      t := new TaggingLocation(this, x, y);
      Tags := Tags + {t};
    }

    /** MakeEntity(id, x, y). An unknown id is skipped (with a warning); a
        constructor that cannot take (level, x, y) fails the Invoke; the
        new entity registers itself; a static tile entity then needs its
        cell inside the grid and, by the Debug.Assert, empty. */
    method MakeEntity(entityConstructors: map<int, ConstructorDecl>, id: int, x: int, y: int)
      returns (r: Outcome<LevelError>, ghost made: Option<Entity>)
      requires Valid()
      modifies this`Walls, this`Doors, this`Tags, staticTileEntities, ParentGame
      ensures Valid() && Grows()
      ensures made.Some? <==> id in entityConstructors && AcceptsLevelArguments(entityConstructors[id])
      ensures id !in entityConstructors ==> r.Pass?
      ensures id in entityConstructors && !AcceptsLevelArguments(entityConstructors[id]) ==>
                r == Fail(ConstructorArgumentMismatch)
      ensures made.None? ==> unchanged(staticTileEntities) && ParentGame.Snapshot() == old(ParentGame.Snapshot())
      ensures made.Some? ==>
                var e := made.value;
                && KindOfEntity(e) == entityConstructors[id].kind && MadeAt(e, x, y)
                && ParentGame.Snapshot() ==
                     Request(old(ParentGame.Snapshot()), EntityOperation(true, e), ParentGame.RenderOrder, ParentGame.IsPlayer)
                && (e.Static? <==> IsStaticKind(KindOfEntity(e)))
                && (!e.Static? ==> r.Pass? && unchanged(staticTileEntities))
                && (e.Static? && !InRange(x, y) ==> r == Fail(IndexOutOfRange) && unchanged(staticTileEntities))
                && (e.Static? && InRange(x, y) && old(GetStaticEntityAt(x, y)).Some? ==>
                      r == Fail(CellOccupied) && unchanged(staticTileEntities))
                && (e.Static? && InRange(x, y) && old(GetStaticEntityAt(x, y)).None? ==>
                      && r.Pass? && GetStaticEntityAt(x, y) == Some(e.tile)
                      && forall i, j :: (i, j) != (x, y) ==> GetStaticEntityAt(i, j) == old(GetStaticEntityAt(i, j)))
    {
      made := None;
      if id !in entityConstructors {
        return Pass, made;
      }
      var decl := entityConstructors[id];
      if !AcceptsLevelArguments(decl) {
        return Fail(ConstructorArgumentMismatch), made;
      }
      var newEntity := Construct(decl.kind, x, y);
      Register(newEntity);
      made := Some(newEntity);
      r := Pass;
      if newEntity.Static? {
        r := PlaceTile(newEntity.tile, x, y);
      }
    }

    /** The registration every Entity constructor performs: the new
        entity is handed to AddEntity. */
    method Register(e: Entity)
      requires Valid() && Known(e)
      modifies ParentGame
      ensures Valid()
      ensures ParentGame.Snapshot() ==
                Request(old(ParentGame.Snapshot()), EntityOperation(true, e), ParentGame.RenderOrder, ParentGame.IsPlayer)
    {
      ghost var st0 := ParentGame.State();
      ParentGame.AddEntity(e);
      ApplyOpMembers(st0, EntityOperation(true, e), ParentGame.RenderOrder, ParentGame.IsPlayer);
      forall x | x in ParentGame.entities
        ensures Known(x)
      {
        if x != e {
          assert x in st0.entities;
        }
      }
      forall i | 0 <= i < |ParentGame.pendingEntityOperations|
        ensures Known(ParentGame.pendingEntityOperations[i].Entity)
      {
        if i < |old(ParentGame.pendingEntityOperations)| {
          assert ParentGame.pendingEntityOperations[i] == old(ParentGame.pendingEntityOperations)[i];
        }
      }
    }

    /** The static-tile part of MakeEntity: the cell must lie inside the
        grid (else the array write throws) and, by the Debug.Assert, be
        empty; then the tile is written there. */
    method PlaceTile(tile: StaticEntity, x: int, y: int) returns (r: Outcome<LevelError>)
      requires Valid() && Known(Static(tile))
      requires tile.TagTile? ==> tile.tag.Extent().Covers(x, y)
      requires MadeFor(tile, x, y)
      modifies staticTileEntities
      ensures Valid()
      ensures !InRange(x, y) ==> r == Fail(IndexOutOfRange) && unchanged(staticTileEntities)
      ensures InRange(x, y) && old(GetStaticEntityAt(x, y)).Some? ==>
                r == Fail(CellOccupied) && unchanged(staticTileEntities)
      ensures InRange(x, y) && old(GetStaticEntityAt(x, y)).None? ==>
                && r.Pass? && GetStaticEntityAt(x, y) == Some(tile)
                && forall i, j :: (i, j) != (x, y) ==> GetStaticEntityAt(i, j) == old(GetStaticEntityAt(i, j))
    {
      if !InRange(x, y) {
        return Fail(IndexOutOfRange);
      }
      if staticTileEntities[x, y].Some? {
        return Fail(CellOccupied);
      }
      staticTileEntities[x, y] := Some(tile);
      forall i, j | IsTaggingLocation(GetStaticEntityAt(i, j))
        ensures GetStaticEntityAt(i, j).value.tag in Tags
        ensures GetStaticEntityAt(i, j).value.tag.Extent().Covers(i, j)
      {
        if (i, j) != (x, y) {
          assert GetStaticEntityAt(i, j) == old(GetStaticEntityAt(i, j));
        }
      }
      forall i, j | GetStaticEntityAt(i, j).Some?
        ensures MadeFor(GetStaticEntityAt(i, j).value, i, j)
      {
        if (i, j) != (x, y) {
          assert GetStaticEntityAt(i, j) == old(GetStaticEntityAt(i, j));
        }
      }
      r := Pass;
    }

    /** SetStaticEntityAt(t, x, y) as CombineWith uses it: a cell inside
        the grid and inside t's extent, whose previous occupant is
        returned. */
    method ClaimCell(t: TaggingLocation, x: int, y: int) returns (previous: Option<StaticEntity>)
      requires Valid() && t in Tags && InRange(x, y) && t.Extent().Covers(x, y)
      modifies staticTileEntities
      ensures Valid()
      ensures previous == old(GetStaticEntityAt(x, y)) && GetStaticEntityAt(x, y) == Some(TagTile(t))
      ensures forall i, j :: (i, j) != (x, y) ==> GetStaticEntityAt(i, j) == old(GetStaticEntityAt(i, j))
    {
      var written := SetStaticEntityAt(Some(TagTile(t)), x, y);
      previous := written.value;
      forall i, j | IsTaggingLocation(GetStaticEntityAt(i, j))
        ensures GetStaticEntityAt(i, j).value.tag in Tags
        ensures GetStaticEntityAt(i, j).value.tag.Extent().Covers(i, j)
      {
        if (i, j) != (x, y) {
          assert GetStaticEntityAt(i, j) == old(GetStaticEntityAt(i, j));
        }
      }
      forall i, j | GetStaticEntityAt(i, j).Some?
        ensures MadeFor(GetStaticEntityAt(i, j).value, i, j)
      {
        if (i, j) != (x, y) {
          assert GetStaticEntityAt(i, j) == old(GetStaticEntityAt(i, j));
        }
      }
    }

    /** What the MakeEntity calls for the placements `ps` leave behind when
        every one of them passed, measured from a grid whose cells had the
        kinds `kinds0` and a registry whose snapshot was `reg0`: the tiles
        are placed, and each made entity was handed to AddEntity in order. */
    ghost predicate LoadedSoFar(ctors: map<int, ConstructorDecl>, ps: seq<Placement>, made: seq<Entity>,
                                kinds0: (int, int) -> CellKind, reg0: Registry<Entity>)
      reads staticTileEntities, ParentGame
    {
      && TilesPlaced(ctors, ps, made, kinds0)
      && ParentGame.Snapshot() == RequestAll(reg0, Additions(made), ParentGame.RenderOrder, ParentGame.IsPlayer)
    }

    /** The grid side of LoadedSoFar: the entities are placed, and every
        cell has the kind of the last static placement naming it, or else
        its kind before. */
    ghost predicate TilesPlaced(ctors: map<int, ConstructorDecl>, ps: seq<Placement>, made: seq<Entity>,
                                kinds0: (int, int) -> CellKind)
      reads staticTileEntities
    {
      && EntitiesPlaced(ctors, ps, made) && KindsPlaced(ctors, ps, kinds0)
      && Placeable(ps, ctors, kinds0, TileWidth(), TileHeight())
    }

    /** Every registered placement's constructor took the level, and
        `made` holds one entity per registered placement, in order and of
        the declared kind. */
    static predicate EntitiesPlaced(ctors: map<int, ConstructorDecl>, ps: seq<Placement>, made: seq<Entity>) {
      Instantiable(ps, ctors) && EntityKinds(made) == DeclaredKinds(ps, ctors)
    }

    /** Every cell has the kind of the last static placement naming it, or
        else its kind in `kinds0`. */
    ghost predicate KindsPlaced(ctors: map<int, ConstructorDecl>, ps: seq<Placement>, kinds0: (int, int) -> CellKind)
      reads staticTileEntities
    {
      forall x, y :: CellKindAt(x, y) == PlacedKind(ps, ctors, x, y, kinds0(x, y))
    }

    /** The kind of the cell (x, y). */
    ghost function CellKindAt(x: int, y: int): CellKind
      reads staticTileEntities
    {
      KindOf(GetStaticEntityAt(x, y))
    }

    /** One more placement `p` keeps EntitiesPlaced when MakeEntity made
        `m` for it: an entity of the declared kind exactly when the id is
        registered. */
    static lemma {:induction false} EntitiesPlacedSnoc(ctors: map<int, ConstructorDecl>, ps: seq<Placement>, made0: seq<Entity>,
                                                        p: Placement, m: Option<Entity>)
      requires EntitiesPlaced(ctors, ps, made0)
      requires p.id in ctors ==> AcceptsLevelArguments(ctors[p.id])
      requires m.Some? <==> p.id in ctors
      requires m.Some? ==> KindOfEntity(m.value) == ctors[p.id].kind
      ensures EntitiesPlaced(ctors, ps + [p], if m.Some? then made0 + [m.value] else made0)
    {
      DeclaredKindsSnoc(ps, p, ctors);
      InstantiableSnoc(ps, p, ctors);
      if m.Some? {
        assert EntityKinds(made0 + [m.value]) == EntityKinds(made0) + [KindOfEntity(m.value)];
      }
    }

    /** One more placement `p` keeps KindsPlaced when its cell takes the
        kind of its registered static entity, and keeps its kind
        otherwise, and no other cell changed. */
    twostate lemma KindsPlacedOneMore(new ctors: map<int, ConstructorDecl>, ps: seq<Placement>,
                                      new kinds0: (int, int) -> CellKind, new p: Placement)
      requires old(KindsPlaced(ctors, ps, kinds0))
      requires StaticAt(p, ctors, p.x, p.y) ==> CellKindAt(p.x, p.y) == CellKindOf(ctors[p.id].kind)
      requires !StaticAt(p, ctors, p.x, p.y) ==> CellKindAt(p.x, p.y) == old(CellKindAt(p.x, p.y))
      requires forall i, j :: (i, j) != (p.x, p.y) ==> GetStaticEntityAt(i, j) == old(GetStaticEntityAt(i, j))
      ensures KindsPlaced(ctors, ps + [p], kinds0)
    {
      forall x, y
        ensures CellKindAt(x, y) == PlacedKind(ps + [p], ctors, x, y, kinds0(x, y))
      {
        PlacedKindSnoc(ps, p, ctors, x, y, kinds0(x, y));
        assert old(CellKindAt(x, y)) == PlacedKind(ps, ctors, x, y, kinds0(x, y));
      }
    }

    /** MakeEntity(id, x, y) for a non-zero token, seen from the CSV pass:
        when it passes, the placement (id, x, y) extends what the pass has
        made; an unknown id makes nothing. */
    method MakePlacement(entityConstructors: map<int, ConstructorDecl>, id: int, x: int, y: int,
                         ghost placed0: seq<Placement>, ghost made0: seq<Entity>,
                         ghost kinds0: (int, int) -> CellKind, ghost reg0: Registry<Entity>)
      returns (r: Outcome<LevelError>, ghost made: seq<Entity>, ghost m: Option<Entity>)
      requires Valid() && LoadedSoFar(entityConstructors, placed0, made0, kinds0, reg0)
      modifies this`Walls, this`Doors, this`Tags, staticTileEntities, ParentGame
      ensures Valid()
      ensures id !in entityConstructors ==> r.Pass? && made == made0
      ensures id in entityConstructors && !AcceptsLevelArguments(entityConstructors[id]) ==>
                r == Fail(ConstructorArgumentMismatch)
      ensures r.Pass? ==>
                && made0 <= made && |made| <= |made0| + 1
                && LoadedSoFar(entityConstructors, placed0 + [Placement(id, x, y)], made, kinds0, reg0)
      ensures made == if m.Some? then made0 + [m.value] else made0
      ensures r.Pass? && m.Some? && m.value.Static? ==>
                old(GetStaticEntityAt(x, y)).None? && GetStaticEntityAt(x, y) == Some(m.value.tile)
      ensures r == PlaceOutcome(entityConstructors, id, x, y, TileWidth(), TileHeight(), old(CellKindAt(x, y)))
    {
      ghost var kind := CellKindAt(x, y);
      assert kind == PlacedKind(placed0, entityConstructors, x, y, kinds0(x, y));
      r, m := MakeEntity(entityConstructors, id, x, y);
      made := if m.Some? then made0 + [m.value] else made0;
      if r.Fail? {
        return;
      }
      LoadedOneMore(entityConstructors, placed0, made0, kinds0, reg0, Placement(id, x, y), m);
    }

    /** The placement `p` that passed, for which MakeEntity made `m`,
        extends LoadedSoFar: the made entity, if any, is of the declared
        kind and was handed to AddEntity, and only its cell changed. */
    twostate lemma LoadedOneMore(new ctors: map<int, ConstructorDecl>, new placed0: seq<Placement>, new made0: seq<Entity>,
                                 new kinds0: (int, int) -> CellKind, new reg0: Registry<Entity>, new p: Placement,
                                 new m: Option<Entity>)
      requires EntitiesPlaced(ctors, placed0, made0) && Placeable(placed0, ctors, kinds0, TileWidth(), TileHeight())
      requires old(KindsPlaced(ctors, placed0, kinds0))
      requires old(ParentGame.Snapshot()) == RequestAll(reg0, Additions(made0), ParentGame.RenderOrder, ParentGame.IsPlayer)
      requires PlaceOutcome(ctors, p.id, p.x, p.y, TileWidth(), TileHeight(), old(CellKindAt(p.x, p.y))) == Pass
      requires m.Some? <==> p.id in ctors
      requires m.None? ==> unchanged(staticTileEntities) && ParentGame.Snapshot() == old(ParentGame.Snapshot())
      requires m.Some? ==>
                 && KindOfEntity(m.value) == ctors[p.id].kind
                 && ParentGame.Snapshot() ==
                      Request(old(ParentGame.Snapshot()), EntityOperation(true, m.value), ParentGame.RenderOrder, ParentGame.IsPlayer)
                 && (m.value.Static? <==> IsStaticKind(KindOfEntity(m.value)))
                 && (!m.value.Static? ==> unchanged(staticTileEntities))
                 && (m.value.Static? ==>
                       && GetStaticEntityAt(p.x, p.y) == Some(m.value.tile)
                       && forall i, j :: (i, j) != (p.x, p.y) ==> GetStaticEntityAt(i, j) == old(GetStaticEntityAt(i, j)))
      ensures LoadedSoFar(ctors, placed0 + [p], if m.Some? then made0 + [m.value] else made0, kinds0, reg0)
    {
      PlaceableOneMore(placed0, p, ctors, kinds0, TileWidth(), TileHeight(), old(CellKindAt(p.x, p.y)));
      if m.Some? {
        RequestAddition(reg0, made0, m.value, ParentGame.RenderOrder, ParentGame.IsPlayer);
      }
      if m.Some? && m.value.Static? {
        assert CellKindAt(p.x, p.y) == CellKindOf(ctors[p.id].kind);
      }
      EntitiesPlacedSnoc(ctors, placed0, made0, p, m);
      KindsPlacedOneMore(ctors, placed0, kinds0, p);
    }

    /** The body of ProcessCsv's inner loop for the token at (x, y), which
        is `ts[i]`: parse it and, unless it is 0, make the entity.
        `placed0` are the MakeEntity calls made for the tokens before it,
        `made0` the entities they made, and `placed` and `made` the same
        once this token is processed. */
    method ProcessToken(entityConstructors: map<int, ConstructorDecl>, token: string, x: int, y: int,
                        ghost ts: seq<Token>, ghost i: nat, ghost placed0: seq<Placement>, ghost made0: seq<Entity>,
                        ghost kinds0: (int, int) -> CellKind, ghost reg0: Registry<Entity>)
      returns (r: Outcome<LevelError>, ghost placed: seq<Placement>, ghost made: seq<Entity>)
      requires LoadedSoFar(entityConstructors, placed0, made0, kinds0, reg0)
      requires Valid()
      requires i < |ts| && ts[i] == Token(token, x, y)
      requires PlacementsUpTo(ts, i) == Success(placed0)
      modifies this`Walls, this`Doors, this`Tags, staticTileEntities, ParentGame
      ensures Valid()
      ensures ParseInt32(token).Failure? ==> r == Fail(ParseInt32(token).error)
      ensures ParseInt32(token).Success? && ParseInt32(token).value == 0 ==> r.Pass?
      ensures ParseInt32(token).Failure? || ParseInt32(token) == Success(0) ==>
                && placed == placed0 && made == made0
                && unchanged(staticTileEntities) && ParentGame.Snapshot() == old(ParentGame.Snapshot())
      ensures ParseInt32(token).Success? && ParseInt32(token).value != 0 && r.Pass? ==>
                placed == placed0 + [Placement(ParseInt32(token).value, x, y)]
      ensures ParseInt32(token).Success? && ParseInt32(token).value != 0 && ParseInt32(token).value in entityConstructors &&
              !AcceptsLevelArguments(entityConstructors[ParseInt32(token).value]) ==>
                r == Fail(ConstructorArgumentMismatch)
      ensures r.Pass? ==>
                && PlacementsUpTo(ts, i + 1) == Success(placed)
                && made0 <= made && |made| <= |made0| + 1
                && LoadedSoFar(entityConstructors, placed, made, kinds0, reg0)
      ensures ParseInt32(token).Success? && ParseInt32(token).value !in entityConstructors ==> r.Pass?
      ensures r == TokenOutcome(Token(token, x, y), entityConstructors, placed0, kinds0, TileWidth(), TileHeight())
    {
      placed, made := placed0, made0;
      var parsed := ParseInt32(token);
      if parsed.Failure? {
        return Fail(parsed.error), placed, made;
      }
      var id := parsed.value;
      r := Pass;
      if id != 0 {
        assert CellKindAt(x, y) == PlacedKind(placed0, entityConstructors, x, y, kinds0(x, y));
        ghost var m;
        r, made, m := MakePlacement(entityConstructors, id, x, y, placed0, made0, kinds0, reg0);
        placed := placed0 + [Placement(id, x, y)];
      }
      PlacementsStep(ts, i, placed0, id);
    }

    /** ProcessCsv(csv): the non-empty lines, the non-empty comma-separated
        tokens of each, each parsed with Convert.ToInt32 and, unless 0,
        handed to MakeEntity with the token's column and line numbers. The
        first error aborts. `consumed` tokens were processed completely,
        `placed` lists the MakeEntity calls made for them and `made` the
        entities those made; `kinds0` are the cell kinds before the call. */
    method ProcessCsv(entityConstructors: map<int, ConstructorDecl>, csv: string)
      returns (r: Outcome<LevelError>, ghost consumed: nat, ghost placed: seq<Placement>,
               ghost made: seq<Entity>, ghost kinds0: (int, int) -> CellKind)
      requires Valid()
      modifies this`Walls, this`Doors, this`Tags, staticTileEntities, ParentGame
      ensures Valid()
      ensures forall x, y :: kinds0(x, y) == KindOf(old(GetStaticEntityAt(x, y)))
      ensures consumed <= |TokensOf(csv)|
      ensures PlacementsUpTo(TokensOf(csv), consumed) == Success(placed)
      ensures r.Pass? ==> consumed == |TokensOf(csv)| && Placements(TokensOf(csv)) == Success(placed)
      ensures r.Pass? ==> LoadedSoFar(entityConstructors, placed, made, kinds0, old(ParentGame.Snapshot()))
      ensures r.Pass? ==> forall p :: p in placed && p.id in entityConstructors ==> AcceptsLevelArguments(entityConstructors[p.id])
      ensures Placeable(placed, entityConstructors, kinds0, TileWidth(), TileHeight())
      ensures r.Fail? ==>
                && consumed < |TokensOf(csv)|
                && r == TokenOutcome(TokensOf(csv)[consumed], entityConstructors, placed, kinds0, TileWidth(), TileHeight())
    {
      ghost var grid0 := imap c: (int, int) | true :: KindOf(GetStaticEntityAt(c.0, c.1));
      kinds0 := (x: int, y: int) => grid0[(x, y)];
      ghost var reg0 := ParentGame.Snapshot();
      var csvLines := SplitNonEmpty(RemoveCarriageReturns(csv), '\n');
      ghost var ts := AllTokens(csvLines);
      assert ts == TokensOf(csv);
      consumed, placed, made := 0, [], [];
      var y := -1;
      for j := 0 to |csvLines|
        invariant Valid()
        invariant y == j - 1
        invariant consumed == TokenOffset(csvLines, j) <= |ts|
        invariant PlacementsUpTo(ts, consumed) == Success(placed)
        invariant LoadedSoFar(entityConstructors, placed, made, kinds0, reg0)
      {
        y := y + 1;
        var csvTokens := SplitNonEmpty(csvLines[j], ',');
        LineTokensAt(csvLines, j, ts, consumed, csvTokens);
        r, consumed, placed, made := ProcessLine(entityConstructors, csvTokens, y, ts, consumed, placed, made, kinds0, reg0);
        if r.Fail? {
          return;
        }
      }
      if |csvLines| > 0 {
        TokenOffsetStep(csvLines, 0);
      }
      InstantiableMembers(placed, entityConstructors);
      r := Pass;
    }

    /** ProcessCsv's inner loop over the tokens of line `y`, which are
        `ts[start..]` on entry with `placed0` made for the ones before and
        `made0` the entities those made. */
    method ProcessLine(entityConstructors: map<int, ConstructorDecl>, csvTokens: seq<string>, y: int,
                       ghost ts: seq<Token>, ghost start: nat, ghost placed0: seq<Placement>, ghost made0: seq<Entity>,
                       ghost kinds0: (int, int) -> CellKind, ghost reg0: Registry<Entity>)
      returns (r: Outcome<LevelError>, ghost consumed: nat, ghost placed: seq<Placement>, ghost made: seq<Entity>)
      requires Valid()
      requires start + |csvTokens| <= |ts|
      requires forall k :: 0 <= k < |csvTokens| ==> ts[start + k] == Token(csvTokens[k], k, y)
      requires PlacementsUpTo(ts, start) == Success(placed0)
      requires LoadedSoFar(entityConstructors, placed0, made0, kinds0, reg0)
      modifies this`Walls, this`Doors, this`Tags, staticTileEntities, ParentGame
      ensures Valid()
      ensures start <= consumed <= start + |csvTokens|
      ensures PlacementsUpTo(ts, consumed) == Success(placed)
      ensures r.Pass? ==> consumed == start + |csvTokens| && LoadedSoFar(entityConstructors, placed, made, kinds0, reg0)
      ensures r.Pass? ==> forall p :: p in placed && p.id in entityConstructors ==> AcceptsLevelArguments(entityConstructors[p.id])
      ensures Placeable(placed, entityConstructors, kinds0, TileWidth(), TileHeight())
      ensures r.Fail? ==>
                && consumed < start + |csvTokens|
                && r == TokenOutcome(ts[consumed], entityConstructors, placed, kinds0, TileWidth(), TileHeight())
    {
      consumed, placed, made := start, placed0, made0;
      var x := -1;
      for k := 0 to |csvTokens|
        invariant Valid()
        invariant x == k - 1
        invariant consumed == start + k
        invariant PlacementsUpTo(ts, consumed) == Success(placed)
        invariant LoadedSoFar(entityConstructors, placed, made, kinds0, reg0)
      {
        x := x + 1;
        LineTokenAt(ts, start, csvTokens, y, k);
        ghost var next, nextMade;
        r, next, nextMade := ProcessToken(entityConstructors, csvTokens[k], x, y, ts, consumed, placed, made, kinds0, reg0);
        if r.Fail? {
          return;
        }
        placed, made := next, nextMade;
        consumed := consumed + 1;
      }
      InstantiableMembers(placed, entityConstructors);
      r := Pass;
    }

    /** A tile entity the adjacency pass has resolved against the current
        grid. */
    ghost predicate Resolved(e: Entity)
      reads this`Walls, this`Doors, this`Tags, staticTileEntities, Walls, Doors, Tags
    {
      match e
      case Static(WallTile(w)) =>
        w in Walls &&
        w.Flags() == WallFlagsFor(ConnectsWith(GetStaticEntityAt(w.TileX - 1, w.TileY)),
                                  ConnectsWith(GetStaticEntityAt(w.TileX + 1, w.TileY)),
                                  ConnectsWith(GetStaticEntityAt(w.TileX, w.TileY - 1)),
                                  ConnectsWith(GetStaticEntityAt(w.TileX, w.TileY + 1)))
      case Static(DoorTile(d)) =>
        d in Doors &&
        var side := DoorSide(IsWall(GetStaticEntityAt(d.TileX - 1, d.TileY)),
                             IsWall(GetStaticEntityAt(d.TileX + 1, d.TileY)),
                             IsWall(GetStaticEntityAt(d.TileX, d.TileY - 1)),
                             IsWall(GetStaticEntityAt(d.TileX, d.TileY + 1)));
        && d.attachLeft == (side == AttachLeft) && d.attachRight == (side == AttachRight)
        && d.attachUp == (side == AttachUp) && d.attachDown == (side == AttachDown)
      case Static(TagTile(t)) => t in Tags && t.level == this && t.Settled()
      case Mobile(_) => true
    }

    /** What Resolved says of the entity in cell (x, y), in terms of that
        cell's own neighbours: a wall there has the connection flags, and
        a door the side, that the four cells around (x, y) give. */
    ghost predicate ResolvedAt(x: int, y: int)
      reads this`Walls, this`Doors, this`Tags, staticTileEntities, Walls, Doors, Tags
    {
      match GetStaticEntityAt(x, y)
      case Some(WallTile(w)) =>
        w in Walls &&
        w.Flags() == WallFlagsFor(ConnectsWith(GetStaticEntityAt(x - 1, y)), ConnectsWith(GetStaticEntityAt(x + 1, y)),
                                  ConnectsWith(GetStaticEntityAt(x, y - 1)), ConnectsWith(GetStaticEntityAt(x, y + 1)))
      case Some(DoorTile(d)) =>
        d in Doors &&
        var side := DoorSide(IsWall(GetStaticEntityAt(x - 1, y)), IsWall(GetStaticEntityAt(x + 1, y)),
                             IsWall(GetStaticEntityAt(x, y - 1)), IsWall(GetStaticEntityAt(x, y + 1)));
        && d.attachLeft == (side == AttachLeft) && d.attachRight == (side == AttachRight)
        && d.attachUp == (side == AttachUp) && d.attachDown == (side == AttachDown)
      case Some(TagTile(t)) => t in Tags && t.level == this && t.Settled()
      case None => true
    }

    /** A resolved wall or door resolved the cell holding it, since it is
        the one made for that cell. */
    lemma ResolvedInPlace(x: int, y: int)
      requires Valid() && GetStaticEntityAt(x, y).Some? && Resolved(Static(GetStaticEntityAt(x, y).value))
      ensures ResolvedAt(x, y)
    {
      assert MadeFor(GetStaticEntityAt(x, y).value, x, y);
    }

    /** The adjacency pass: every wall, door and tagging location the
        registry lists, in list order and under protection, resolves its
        adjacency; removals of absorbed locations are queued and applied
        when the outermost protection ends. A failure propagates out of the
        enumeration and leaves the list protected. */
    method ComputeAdjacency() returns (r: Outcome<LevelError>, ghost absorbed: seq<TaggingLocation>)
      requires Valid()
      modifies Walls, Doors, Tags, staticTileEntities, ParentGame
      ensures Valid()
      ensures forall x, y :: KindOf(GetStaticEntityAt(x, y)) == KindOf(old(GetStaticEntityAt(x, y)))
      ensures r.Fail? ==> r.error == CombineFailed(OtherNotSingleTile)
      ensures r.Fail? ==> ParentGame.entityListProtectionDepth == old(ParentGame.entityListProtectionDepth) + 1
      ensures r.Pass? ==> forall e :: e in old(ParentGame.entities) ==> Resolved(e)
      ensures r.Pass? ==> forall e :: e in ParentGame.entities ==> Resolved(e)
      ensures r.Pass? ==>
                ParentGame.Snapshot() ==
                  RequestAll(old(ParentGame.Snapshot()), Removals(absorbed), ParentGame.RenderOrder, ParentGame.IsPlayer)
    {
      ghost var reg0 := ParentGame.Snapshot();
      ParentGame.ProtectEntitiesList();
      var targets := Filter(ParentGame.entities, NeedsAdjacency);
      FilterMembers(ParentGame.entities, NeedsAdjacency);
      r, absorbed := ComputeAdjacencyOfAll(targets);
      if r.Fail? {
        return;
      }
      EndPass(reg0, Removals(absorbed));
      r := Pass;
    }

    /** The end of a successful adjacency pass: the protection ends, and
        when it was the outermost one the queued removals are applied. */
    method EndPass(ghost reg0: Registry<Entity>, ghost ops: seq<EntityOperation<Entity>>)
      requires Valid() && reg0.depth >= 0 && (reg0.depth == 0 ==> reg0.pending == [])
      requires ParentGame.State() == reg0.state && ParentGame.entityListProtectionDepth == reg0.depth + 1
      requires ParentGame.pendingEntityOperations == reg0.pending + ops
      requires forall i :: 0 <= i < |ops| ==> !ops[i].IsAdd
      requires forall e :: e in ParentGame.entities ==> Resolved(e)
      modifies ParentGame
      ensures Valid()
      ensures forall e :: e in ParentGame.entities ==> Resolved(e)
      ensures ParentGame.Snapshot() == RequestAll(reg0, ops, ParentGame.RenderOrder, ParentGame.IsPlayer)
    {
      ParentGame.EndProtectAfterRemovals(reg0, ops);
    }

    /** The enumeration of the adjacency pass over `targets`, in order,
        while the entity list is protected. */
    method ComputeAdjacencyOfAll(targets: seq<Entity>) returns (r: Outcome<LevelError>, ghost absorbed: seq<TaggingLocation>)
      requires Valid() && ParentGame.entityListProtectionDepth > 0
      requires forall e :: e in targets ==> e in ParentGame.entities && e.Static?
      modifies Walls, Doors, Tags, staticTileEntities, ParentGame
      ensures Valid()
      ensures forall x, y :: KindOf(GetStaticEntityAt(x, y)) == KindOf(old(GetStaticEntityAt(x, y)))
      ensures r.Fail? ==> r.error == CombineFailed(OtherNotSingleTile)
      ensures r.Pass? ==> forall e :: e in targets ==> Resolved(e)
      ensures ParentGame.State() == old(ParentGame.State())
      ensures ParentGame.entityListProtectionDepth == old(ParentGame.entityListProtectionDepth)
      ensures ParentGame.pendingEntityOperations == old(ParentGame.pendingEntityOperations) + Removals(absorbed)
    {
      absorbed := [];
      r := Pass;
      for i := 0 to |targets|
        invariant Valid()
        invariant ParentGame.entityListProtectionDepth == old(ParentGame.entityListProtectionDepth)
        invariant ParentGame.State() == old(ParentGame.State())
        invariant ParentGame.pendingEntityOperations == old(ParentGame.pendingEntityOperations) + Removals(absorbed)
        invariant forall x, y :: KindOf(GetStaticEntityAt(x, y)) == KindOf(old(GetStaticEntityAt(x, y)))
        invariant forall j :: 0 <= j < i ==> Resolved(targets[j])
        invariant r.Pass?
      {
        ghost var more;
        r, more := ResolveTarget(targets, i);
        QueueRemovals(old(ParentGame.pendingEntityOperations), absorbed, more);
        absorbed := absorbed + more;
        if r.Fail? {
          return;
        }
      }
    }

    /** The i-th iteration of the adjacency pass over `targets`: the
        targets before it stay resolved and the i-th one is resolved. */
    method ResolveTarget(targets: seq<Entity>, i: nat) returns (r: Outcome<LevelError>, ghost absorbed: seq<TaggingLocation>)
      requires Valid() && ParentGame.entityListProtectionDepth > 0 && i < |targets|
      requires forall e :: e in targets ==> e in ParentGame.entities && e.Static?
      requires forall j :: 0 <= j < i ==> Resolved(targets[j])
      modifies Walls, Doors, Tags, staticTileEntities, ParentGame
      ensures Valid()
      ensures forall x, y :: KindOf(GetStaticEntityAt(x, y)) == KindOf(old(GetStaticEntityAt(x, y)))
      ensures r.Fail? ==> r.error == CombineFailed(OtherNotSingleTile)
      ensures r.Pass? ==> forall j :: 0 <= j <= i ==> Resolved(targets[j])
      ensures ParentGame.State() == old(ParentGame.State())
      ensures ParentGame.entityListProtectionDepth == old(ParentGame.entityListProtectionDepth)
      ensures ParentGame.pendingEntityOperations == old(ParentGame.pendingEntityOperations) + Removals(absorbed)
    {
      r, absorbed := ComputeAdjacencyOf(targets[i]);
      if r.Pass? {
        forall j | 0 <= j < i
          ensures Resolved(targets[j])
        {
          assert targets[j] in old(ParentGame.entities) && old(Resolved(targets[j]));
        }
      }
    }

    /** One step of the adjacency pass: `e.ComputeAdjacency(this)`. It
        leaves every entity resolved before resolved, and queues the
        removals of the locations it absorbs. */
    method ComputeAdjacencyOf(e: Entity) returns (r: Outcome<LevelError>, ghost absorbed: seq<TaggingLocation>)
      requires Valid() && e.Static? && Known(e)
      modifies Walls, Doors, Tags, staticTileEntities, ParentGame
      ensures Valid()
      ensures forall x, y :: KindOf(GetStaticEntityAt(x, y)) == KindOf(old(GetStaticEntityAt(x, y)))
      ensures r.Fail? ==> r.error == CombineFailed(OtherNotSingleTile)
      ensures r.Pass? ==> Resolved(e)
      ensures r.Pass? ==> forall x :: x in old(ParentGame.entities) && old(Resolved(x)) ==> Resolved(x)
      ensures old(ParentGame.entityListProtectionDepth) > 0 ==>
                && ParentGame.State() == old(ParentGame.State())
                && ParentGame.entityListProtectionDepth == old(ParentGame.entityListProtectionDepth)
                && ParentGame.pendingEntityOperations == old(ParentGame.pendingEntityOperations) + Removals(absorbed)
    {
      absorbed := [];
      r := Pass;
      match e.tile {
        case WallTile(w) =>
          w.ComputeAdjacency(this);
          forall x | x in old(ParentGame.entities) && old(Resolved(x))
            ensures Resolved(x)
          {
            if x.Static? && x.tile.WallTile? && x.tile.wall != w {
              assert unchanged(x.tile.wall);
            }
          }
        case DoorTile(dr) =>
          dr.ComputeAdjacency(this);
          forall x | x in old(ParentGame.entities) && old(Resolved(x))
            ensures Resolved(x)
          {
            if x.Static? && x.tile.DoorTile? && x.tile.door != dr {
              assert unchanged(x.tile.door);
            }
          }
        case TagTile(t) =>
          r, absorbed := ComputeTagAdjacency(t);
      }
    }

    /** The tagging-location case of ComputeAdjacencyOf. */
    method ComputeTagAdjacency(t: TaggingLocation) returns (r: Outcome<LevelError>, ghost absorbed: seq<TaggingLocation>)
      requires Valid() && t in Tags
      modifies Walls, Doors, Tags, staticTileEntities, ParentGame
      ensures Valid()
      ensures forall x, y :: KindOf(GetStaticEntityAt(x, y)) == KindOf(old(GetStaticEntityAt(x, y)))
      ensures r.Fail? ==> r.error == CombineFailed(OtherNotSingleTile)
      ensures r.Pass? ==> Resolved(Static(TagTile(t)))
      ensures r.Pass? ==> forall x :: x in old(ParentGame.entities) && old(Resolved(x)) ==> Resolved(x)
      ensures old(ParentGame.entityListProtectionDepth) > 0 ==>
                && ParentGame.State() == old(ParentGame.State())
                && ParentGame.entityListProtectionDepth == old(ParentGame.entityListProtectionDepth)
                && ParentGame.pendingEntityOperations == old(ParentGame.pendingEntityOperations) + Removals(absorbed)
    {
      ghost var reg1 := ParentGame.Snapshot();
      r, absorbed := t.ComputeAdjacency();
      RequestAllSpec(reg1, Removals(absorbed), ParentGame.RenderOrder, ParentGame.IsPlayer);
      if r.Pass? {
        forall x | x in old(ParentGame.entities) && old(Resolved(x))
          ensures Resolved(x)
        {
          match x
          case Static(WallTile(w)) =>
            assert unchanged(w);
          case Static(DoorTile(d)) =>
            assert unchanged(d);
          case Static(TagTile(t2)) =>
            if t2 != t && !t2.wasAbsorbed {
              assert !old(t2.wasAbsorbed);
              assert t2.Extent() == old(t2.Extent()) && t2.wallDirection == old(t2.wallDirection);
              assert t2.Candidate() == old(t2.Candidate());
              assert t2.FacingWall(t2.wallDirection) == old(t2.FacingWall(t2.wallDirection));
            }
          case Mobile(_) =>
        }
      }
    }

    /** IsDecalSpotFree(x, y). */
    method IsDecalSpotFree(x: int, y: int) returns (free: bool)
      ensures free == SpotFree(decals, x, y)
    {
      for k := 0 to |decals|
        invariant SpotFree(decals[..k], x, y)
      {
        if decals[k].TileX == x && decals[k].TileY == y {
          return false;
        }
      }
      assert decals[..|decals|] == decals;
      return true;
    }

    /** The tile part of the constructor: ProcessCsv, seen from the
        constructor. On success every token parsed, `placed` are the
        layer's placements and `made` the entities they made. */
    method LoadTiles(entityConstructors: map<int, ConstructorDecl>, csv: string)
      returns (r: Outcome<LevelError>, ghost placed: seq<Placement>, ghost made: seq<Entity>,
               ghost kinds0: (int, int) -> CellKind)
      requires Valid()
      modifies this`Walls, this`Doors, this`Tags, staticTileEntities, ParentGame
      ensures Valid() && decals == old(decals)
      ensures forall x, y :: kinds0(x, y) == KindOf(old(GetStaticEntityAt(x, y)))
      ensures r.Pass? ==>
                && Placements(TokensOf(csv)) == Success(placed)
                && LoadedSoFar(entityConstructors, placed, made, kinds0, old(ParentGame.Snapshot()))
                && forall p :: p in placed && p.id in entityConstructors ==> AcceptsLevelArguments(entityConstructors[p.id])
      ensures r == ScanOutcome(TokensOf(csv), |TokensOf(csv)|, entityConstructors, kinds0, TileWidth(), TileHeight())
    {
      ghost var consumed;
      r, consumed, placed, made, kinds0 := ProcessCsv(entityConstructors, csv);
      ghost var ts := TokensOf(csv);
      if r.Fail? {
        ScanFailsAt(ts, consumed, |ts|, placed, entityConstructors, kinds0, TileWidth(), TileHeight());
      } else {
        ScanPassesPlaceable(ts, consumed, placed, entityConstructors, kinds0, TileWidth(), TileHeight());
      }
    }

    /** The rest of the constructor once the tiles are placed: the
        adjacency pass, which removes the `absorbed` tagging locations
        from the registry and keeps every cell's kind, then the decals. */
    method FinishConstruction(draws: nat -> nat) returns (r: Outcome<LevelError>, ghost absorbed: seq<TaggingLocation>)
      requires Valid() && decals == []
      modifies Walls, Doors, Tags, staticTileEntities, ParentGame, this`decals
      ensures Valid()
      ensures forall x, y :: KindOf(GetStaticEntityAt(x, y)) == KindOf(old(GetStaticEntityAt(x, y)))
      ensures r.Fail? ==> r.error == CombineFailed(OtherNotSingleTile)
      ensures r.Pass? ==> forall e :: e in ParentGame.entities ==> Resolved(e)
      ensures r.Pass? ==>
                ParentGame.Snapshot() ==
                  RequestAll(old(ParentGame.Snapshot()), Removals(absorbed), ParentGame.RenderOrder, ParentGame.IsPlayer)
      ensures r.Pass? ==> DecalsPlaced(decals, MaxDecalTiles(TileWidth()), MaxDecalTiles(TileHeight()))
    {
      var adjacency;
      adjacency, absorbed := ComputeAdjacency();
      if adjacency.Fail? {
        return adjacency, absorbed;
      }
      ghost var used := PlaceGroundDecals(draws);
      r := Pass;
    }

    /** The decal part of the constructor, reading the game's random
        stream from `draws`: the number of decals, then per attempt a spot
        and, when the spot is free, a texture. `used` is the number of
        draws taken. */
    method PlaceGroundDecals(draws: nat -> nat) returns (ghost used: nat)
      requires Valid()
      modifies this`decals
      ensures Valid()
      ensures forall e :: e in ParentGame.entities && old(Resolved(e)) ==> Resolved(e)
      ensures var maxX := MaxDecalTiles(TileWidth());
              var maxY := MaxDecalTiles(TileHeight());
              var start := if minNumGroundDecals < maxX * maxY then 1 else 0;
              (decals, used) == DecalLoop(old(decals), 0, 0, NumDecals(maxX * maxY, draws(0)), maxX, maxY, draws, start)
      ensures old(decals) == [] ==> DecalsPlaced(decals, MaxDecalTiles(TileWidth()), MaxDecalTiles(TileHeight()))
    {
      var maxDecalX := MaxDecalTiles(TileWidth());
      var maxDecalY := MaxDecalTiles(TileHeight());
      var maxNumDecals := maxDecalX * maxDecalY;
      var pos: nat := 0;
      var numDecals;
      if minNumGroundDecals < maxNumDecals {
        numDecals := Next(draws(pos), minNumGroundDecals, maxNumDecals);
        pos := pos + 1;
      } else {
        numDecals := minNumGroundDecals;
        maxNumDecals := minNumGroundDecals;
      }
      used := DecalAttempts(numDecals, maxDecalX, maxDecalY, draws, pos);
    }

    /** The for loop of the decal part: up to five attempts, an occupied
        spot counting as an attempt but not as a decal. */
    method DecalAttempts(numDecals: int, maxDecalX: nat, maxDecalY: nat, draws: nat -> nat, start: nat)
      returns (ghost used: nat)
      modifies this`decals
      ensures (decals, used) == DecalLoop(old(decals), 0, 0, numDecals, maxDecalX, maxDecalY, draws, start)
      ensures old(decals) == [] ==> DecalsPlaced(decals, maxDecalX, maxDecalY)
    {
      ghost var target := DecalLoop(decals, 0, 0, numDecals, maxDecalX, maxDecalY, draws, start);
      var pos := start;
      var i, attempts := 0, 0;
      while i < numDecals && attempts < 5
        invariant 0 <= attempts <= 5
        invariant DecalLoop(decals, i, attempts, numDecals, maxDecalX, maxDecalY, draws, pos) == target
        decreases 5 - attempts
      {
        var x := Next(draws(pos), 0, maxDecalX);
        var y := Next(draws(pos + 1), 0, maxDecalY);
        pos := pos + 2;
        var free := IsDecalSpotFree(x, y);
        if !free {
          i := i - 1;
        } else {
          decals := decals + [GroundDecal(Next(draws(pos), 0, concreteDecalCount), x, y)];
          pos := pos + 1;
        }
        i, attempts := i + 1, attempts + 1;
      }
      used := pos;
      if old(decals) == [] {
        DecalLoopSpec([], 0, 0, numDecals, maxDecalX, maxDecalY, draws, start);
      }
    }
  }

  // ---------------------------------------------------------------------
  // Loading a level

  /** The Level constructor's work: the header checks, the empty grid, the
      tiles, the adjacency pass and the decals, stopping at the first
      error. On success each cell holds the kind of the static entity the
      tile layer placed there, or is empty, and the game's registry has
      had the made entities added, then the absorbed tagging locations
      removed. */
  method LoadLevel(parentGame: EntityRegistry<Entity>, entityConstructors: map<int, ConstructorDecl>,
                   header: MapHeader, draws: nat -> nat)
    returns (r: Result<Level, LevelError>, ghost made: seq<Entity>, ghost absorbed: seq<TaggingLocation>,
             ghost kinds0: (int, int) -> CellKind)
    requires parentGame.Valid() && HoldsNoTiles(parentGame)
    modifies parentGame
    ensures ValidateHeader(header).Failure? ==> r == Failure(ValidateHeader(header).error) && unchanged(parentGame)
    ensures ValidateHeader(header).Success? && Placements(TokensOf(ValidateHeader(header).value.2)).Failure? ==>
              r.Failure?
    ensures ValidateHeader(header).Success? && Placements(TokensOf(ValidateHeader(header).value.2)).Success? &&
            WellFormedLayer(Placements(TokensOf(ValidateHeader(header).value.2)).value, entityConstructors, kinds0,
                            ValidateHeader(header).value.0, ValidateHeader(header).value.1) ==>
              r.Success? || r == Failure(CombineFailed(OtherNotSingleTile))
    ensures ValidateHeader(header).Success? ==>
              && (forall x, y :: kinds0(x, y) == EmptyCell)
              && var (w, h, csv) := ValidateHeader(header).value;
                 var scan := ScanOutcome(TokensOf(csv), |TokensOf(csv)|, entityConstructors, kinds0, w, h);
                 && (scan.Fail? ==> r == Failure(scan.error))
                 && (scan.Pass? ==> r.Success? || r == Failure(CombineFailed(OtherNotSingleTile)))
    ensures r.Success? ==>
              var level := r.value;
              && fresh(level) && level.Valid() && level.ParentGame == parentGame
              && ValidateHeader(header).Success?
              && level.TileWidth() == ValidateHeader(header).value.0
              && level.TileHeight() == ValidateHeader(header).value.1
              && Placements(TokensOf(ValidateHeader(header).value.2)).Success?
              && var ps := Placements(TokensOf(ValidateHeader(header).value.2)).value;
                 && (forall x, y :: KindOf(level.GetStaticEntityAt(x, y)) == PlacedKind(ps, entityConstructors, x, y, EmptyCell))
                 && (forall p :: p in ps && p.id in entityConstructors ==> AcceptsLevelArguments(entityConstructors[p.id]))
                 && EntityKinds(made) == DeclaredKinds(ps, entityConstructors)
                 && parentGame.Snapshot() ==
                      RequestAll(RequestAll(old(parentGame.Snapshot()), Additions(made), parentGame.RenderOrder, parentGame.IsPlayer),
                                 Removals(absorbed), parentGame.RenderOrder, parentGame.IsPlayer)
                 && (forall e :: e in parentGame.entities ==> level.Resolved(e))
                 && (forall x, y ::
                       level.GetStaticEntityAt(x, y).Some? && Static(level.GetStaticEntityAt(x, y).value) in parentGame.entities
                       ==> level.ResolvedAt(x, y))
                 && DecalsPlaced(level.decals, MaxDecalTiles(level.TileWidth()), MaxDecalTiles(level.TileHeight()))
  {
    made, absorbed, kinds0 := [], [], (x: int, y: int) => EmptyCell;
    var size := ValidateHeader(header);
    if size.Failure? {
      return Failure(size.error), made, absorbed, kinds0;
    }
    var (tileWidth, tileHeight, csv) := size.value;
    var level := new Level(parentGame, tileWidth, tileHeight);
    ghost var placed;
    var loaded;
    loaded, placed, made, kinds0 := level.LoadTiles(entityConstructors, csv);
    LayerPassesIffWellFormed(TokensOf(csv), entityConstructors, kinds0, tileWidth, tileHeight);
    if loaded.Fail? {
      return Failure(loaded.error), made, absorbed, kinds0;
    }
    label loaded:
    var finished;
    finished, absorbed := level.FinishConstruction(draws);
    if finished.Fail? {
      return Failure(finished.error), made, absorbed, kinds0;
    }
    forall x, y
      ensures KindOf(level.GetStaticEntityAt(x, y)) == PlacedKind(placed, entityConstructors, x, y, EmptyCell)
    {
      assert old@loaded(level.CellKindAt(x, y)) == PlacedKind(placed, entityConstructors, x, y, kinds0(x, y));
    }
    forall x, y | level.GetStaticEntityAt(x, y).Some? && Static(level.GetStaticEntityAt(x, y).value) in parentGame.entities
      ensures level.ResolvedAt(x, y)
    {
      level.ResolvedInPlace(x, y);
    }
    r := Success(level);
  }
}

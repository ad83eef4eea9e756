/** The game's entity registry: the render-ordered entity list, the current
    Player, and the protection mechanism that defers additions and removals
    requested while the list is being iterated. The registry is generic in
    the entity type; `RenderOrder` and `IsPlayer` stand for the entity's
    RenderOrder property and the `entity is Player` test. */
module EntityManagement {
  import opened Wrappers

  // ---------------------------------------------------------------------
  // Specification functions

  ghost predicate SortedBy<E>(s: seq<E>, key: E -> int) {
    forall i, j :: 0 <= i < j < |s| ==> key(s[i]) <= key(s[j])
  }

  /** Inserts `x` after every element whose key is not greater than its own. */
  function Insert<E>(s: seq<E>, x: E, key: E -> int): (r: seq<E>)
    ensures multiset(r) == multiset(s) + multiset{x}
  {
    if s == [] then [x]
    else if key(s[|s| - 1]) <= key(x) then s + [x]
    else
      var front := s[..|s| - 1];
      assert s == front + [s[|s| - 1]];
      Insert(front, x, key) + [s[|s| - 1]]
  }

  lemma {:induction false} InsertSorted<E>(s: seq<E>, x: E, key: E -> int)
    requires SortedBy(s, key)
    ensures SortedBy(Insert(s, x, key), key)
  {
    if s != [] && key(s[|s| - 1]) > key(x) {
      var front, last := s[..|s| - 1], s[|s| - 1];
      InsertSorted(front, x, key);
      var r0 := Insert(front, x, key);
      forall i | 0 <= i < |r0| ensures key(r0[i]) <= key(last) {
        var y := r0[i];
        assert y in multiset(r0);
        if y != x {
          assert y in multiset(front);
          var k :| 0 <= k < |front| && front[k] == y;
          assert s[k] == y;
        }
      }
    }
  }

  /** The order List.Sort leaves the list in. List.Sort is unstable, so this
      resolves the relative order of equal keys one way (stably). Through
      it, SortEntityRenderOrder and AddNow fix that one tie order, which
      the source does not promise; SortByKey's own contract is sorted plus
      permutation. */
  function SortByKey<E>(s: seq<E>, key: E -> int): (r: seq<E>)
    ensures SortedBy(r, key)
    ensures multiset(r) == multiset(s)
  {
    if s == [] then []
    else
      assert s == s[..|s| - 1] + [s[|s| - 1]];
      var sortedFront := SortByKey(s[..|s| - 1], key);
      InsertSorted(sortedFront, s[|s| - 1], key);
      Insert(sortedFront, s[|s| - 1], key)
  }

  /** The position of the first occurrence of `x` in `s`. */
  function IndexOf<E(==)>(s: seq<E>, x: E): (i: nat)
    requires x in s
    ensures i < |s| && s[i] == x && x !in s[..i]
  {
    if s[0] == x then 0
    else
      var j := IndexOf(s[1..], x);
      assert s[..j + 1] == [s[0]] + s[1..][..j];
      j + 1
  }

  /** List.Remove: drops the first occurrence, if any, and keeps the order
      of the rest. */
  function RemoveFirst<E(==)>(s: seq<E>, x: E): seq<E> {
    if s == [] then []
    else if s[0] == x then s[1..]
    else [s[0]] + RemoveFirst(s[1..], x)
  }

  /** List.Remove drops one occurrence: the multiset loses one copy of `x`
      (none when there is none). */
  lemma {:induction false} RemoveFirstMultiset<E>(s: seq<E>, x: E)
    ensures multiset(RemoveFirst(s, x)) == multiset(s) - multiset{x}
  {
    if s != [] {
      assert s == [s[0]] + s[1..];
      if s[0] != x {
        RemoveFirstMultiset(s[1..], x);
      }
    }
  }

  /** List.Remove leaves a list without `x` as it is. */
  lemma {:induction false} RemoveFirstAbsent<E>(s: seq<E>, x: E)
    requires x !in s
    ensures RemoveFirst(s, x) == s
  {
    if s != [] {
      RemoveFirstAbsent(s[1..], x);
    }
  }

  /** List.Remove cuts out exactly the first occurrence of `x`, keeping the
      order of the rest. */
  lemma {:induction false} RemoveFirstCut<E>(s: seq<E>, x: E)
    requires x in s
    ensures RemoveFirst(s, x) == s[..IndexOf(s, x)] + s[IndexOf(s, x) + 1..]
  {
    if s[0] != x {
      var j := IndexOf(s[1..], x);
      assert IndexOf(s, x) == j + 1;
      RemoveFirstCut(s[1..], x);
      CutAfterHead(s, j);
    }
  }

  /** Cutting out position j + 1 of `s` is keeping the head and cutting
      out position j of the tail. */
  lemma CutAfterHead<E>(s: seq<E>, j: nat)
    requires j + 1 < |s|
    ensures s[..j + 1] + s[j + 2..] == [s[0]] + (s[1..][..j] + s[1..][j + 1..])
  {
    assert s[..j + 1] == [s[0]] + s[1..][..j];
    assert s[j + 2..] == s[1..][j + 1..];
  }

  /** The elements of `s` satisfying `p`, in list order. */
  function Filter<E>(s: seq<E>, p: E -> bool): (r: seq<E>)
    ensures multiset(r) <= multiset(s)
    ensures forall x :: x in r ==> p(x)
  {
    if s == [] then []
    else
      assert s == s[..|s| - 1] + [s[|s| - 1]];
      Filter(s[..|s| - 1], p) + (if p(s[|s| - 1]) then [s[|s| - 1]] else [])
  }

  /** The part of the registry that deferred operations act on. */
  datatype RegistryState<E> = RegistryState(entities: seq<E>, Player: Option<E>)

  datatype EntityOperation<E> = EntityOperation(IsAdd: bool, Entity: E)

  ghost predicate StateInv<E>(st: RegistryState<E>, key: E -> int, isPlayer: E -> bool) {
    && SortedBy(st.entities, key)
    && (st.Player.Some? ==> isPlayer(st.Player.value) && st.Player.value in st.entities)
  }

  /** AddEntity when the list is not protected. */
  function AddNow<E(==)>(st: RegistryState<E>, e: E, key: E -> int, isPlayer: E -> bool): RegistryState<E> {
    RegistryState(SortByKey(st.entities + [e], key),
                  if st.Player.None? && isPlayer(e) then Some(e) else st.Player)
  }

  /** RemoveEntity when the list is not protected. */
  function RemoveNow<E(==)>(st: RegistryState<E>, e: E): RegistryState<E> {
    RegistryState(RemoveFirst(st.entities, e), if st.Player == Some(e) then None else st.Player)
  }

  function ApplyOp<E(==)>(st: RegistryState<E>, op: EntityOperation<E>, key: E -> int, isPlayer: E -> bool)
    : RegistryState<E>
  {
    if op.IsAdd then AddNow(st, op.Entity, key, isPlayer) else RemoveNow(st, op.Entity)
  }

  /** The pending operations applied first to last. */
  function ApplyAll<E(==)>(st: RegistryState<E>, ops: seq<EntityOperation<E>>, key: E -> int, isPlayer: E -> bool)
    : RegistryState<E>
    decreases |ops|
  {
    if ops == [] then st else ApplyAll(ApplyOp(st, ops[0], key, isPlayer), ops[1..], key, isPlayer)
  }

  // ---------------------------------------------------------------------
  // Properties of the specification

  /** Applying a queue and then one more operation is applying the longer
      queue: the flush is first-in, first-out. */
  lemma {:induction false} ApplyAllSnoc<E>(st: RegistryState<E>, ops: seq<EntityOperation<E>>,
                                              op: EntityOperation<E>, key: E -> int, isPlayer: E -> bool)
    ensures ApplyAll(st, ops + [op], key, isPlayer) == ApplyOp(ApplyAll(st, ops, key, isPlayer), op, key, isPlayer)
    decreases |ops|
  {
    if ops == [] {
      assert ([] + [op])[1..] == [];
    } else {
      assert (ops + [op])[1..] == ops[1..] + [op];
      ApplyAllSnoc(ApplyOp(st, ops[0], key, isPlayer), ops[1..], op, key, isPlayer);
    }
  }

  /** Removing one occurrence keeps a sorted list sorted. */
  lemma {:induction false} RemoveFirstKeepsSorted<E>(s: seq<E>, x: E, key: E -> int)
    requires SortedBy(s, key)
    ensures SortedBy(RemoveFirst(s, x), key)
    ensures forall y :: y in RemoveFirst(s, x) ==> y in s
  {
    if s != [] && s[0] != x {
      RemoveFirstKeepsSorted(s[1..], x, key);
      var rest := RemoveFirst(s[1..], x);
      forall y | y in rest ensures key(s[0]) <= key(y) {
        assert y in s[1..];
      }
    }
  }

  /** An immediate AddEntity leaves the list sorted by render order and a
      permutation of the old list plus the entity, and takes the entity as
      Player exactly when there was none and it is a Player. */
  lemma AddNowSpec<E>(st: RegistryState<E>, e: E, key: E -> int, isPlayer: E -> bool)
    requires StateInv(st, key, isPlayer)
    ensures var r := AddNow(st, e, key, isPlayer);
            && StateInv(r, key, isPlayer)
            && multiset(r.entities) == multiset(st.entities) + multiset{e}
            && (r.Player == Some(e) <==> (st.Player.None? && isPlayer(e)) || st.Player == Some(e))
            && (st.Player.Some? ==> r.Player == st.Player)
  {
    var r := AddNow(st, e, key, isPlayer);
    if r.Player.Some? {
      assert r.Player.value in multiset(r.entities);
    }
  }

  /** An immediate RemoveEntity keeps the list sorted and removes one
      occurrence of the entity from the multiset, and clears Player exactly
      when the removed entity is the Player. Which occurrence goes, and
      the order of the rest, is RemoveNowOrder. */
  lemma RemoveNowSpec<E>(st: RegistryState<E>, e: E, key: E -> int, isPlayer: E -> bool)
    requires StateInv(st, key, isPlayer)
    ensures var r := RemoveNow(st, e);
            && StateInv(r, key, isPlayer)
            && multiset(r.entities) == multiset(st.entities) - multiset{e}
            && (r.Player.None? <==> st.Player.None? || st.Player == Some(e))
  {
    RemoveFirstKeepsSorted(st.entities, e, key);
    RemoveFirstMultiset(st.entities, e);
    var r := RemoveNow(st, e);
    if r.Player.Some? {
      var p := r.Player.value;
      assert p != e;
      assert p in multiset(st.entities);
      assert multiset(r.entities)[p] == multiset(st.entities)[p];
      assert p in multiset(r.entities);
    }
  }

  /** An immediate RemoveEntity of an entity the list does not hold leaves
      the list as it is; otherwise it cuts out the first occurrence and
      keeps the order of the rest. */
  lemma RemoveNowOrder<E>(st: RegistryState<E>, e: E)
    ensures e !in st.entities ==> RemoveNow(st, e).entities == st.entities
    ensures e in st.entities ==>
              RemoveNow(st, e).entities == st.entities[..IndexOf(st.entities, e)] + st.entities[IndexOf(st.entities, e) + 1..]
  {
    if e in st.entities {
      RemoveFirstCut(st.entities, e);
    } else {
      RemoveFirstAbsent(st.entities, e);
    }
  }

  lemma ApplyAllKeepsInv<E>(st: RegistryState<E>, ops: seq<EntityOperation<E>>, key: E -> int, isPlayer: E -> bool)
    requires StateInv(st, key, isPlayer)
    ensures StateInv(ApplyAll(st, ops, key, isPlayer), key, isPlayer)
    decreases |ops|
  {
    if ops != [] {
      if ops[0].IsAdd { AddNowSpec(st, ops[0].Entity, key, isPlayer); }
      else { RemoveNowSpec(st, ops[0].Entity, key, isPlayer); }
      ApplyAllKeepsInv(ApplyOp(st, ops[0], key, isPlayer), ops[1..], key, isPlayer);
    }
  }

  /** Filter keeps exactly the elements satisfying the test, in order. */
  lemma {:induction false} FilterSpec<E>(s: seq<E>, t: seq<E>, p: E -> bool)
    ensures Filter(s + t, p) == Filter(s, p) + Filter(t, p)
    ensures forall x :: x in Filter(s, p) <==> x in s && p(x)
    decreases |t|
  {
    if t == [] {
      assert s + t == s;
    } else {
      assert (s + t)[..|s + t| - 1] == s + t[..|t| - 1];
      FilterSpec(s, t[..|t| - 1], p);
    }
    FilterMembers(s, p);
  }

  lemma {:induction false} FilterMembers<E>(s: seq<E>, p: E -> bool)
    ensures forall x :: x in Filter(s, p) ==> x in s
    ensures forall x :: x in s && p(x) ==> x in Filter(s, p)
  {
    if s != [] {
      var front := s[..|s| - 1];
      FilterMembers(front, p);
      assert s == front + [s[|s| - 1]];
    }
  }

  /** A queue of removals only leaves entities the list already held. */
  lemma {:induction false} ApplyRemovalsShrinks<E>(st: RegistryState<E>, ops: seq<EntityOperation<E>>,
                                                    key: E -> int, isPlayer: E -> bool)
    requires forall i :: 0 <= i < |ops| ==> !ops[i].IsAdd
    ensures forall x :: x in ApplyAll(st, ops, key, isPlayer).entities ==> x in st.entities
    decreases |ops|
  {
    if ops != [] {
      var next := ApplyOp(st, ops[0], key, isPlayer);
      RemoveFirstMultiset(st.entities, ops[0].Entity);
      ApplyRemovalsShrinks(next, ops[1..], key, isPlayer);
      forall x | x in next.entities ensures x in st.entities {
        assert x in multiset(next.entities);
      }
    }
  }

  /** An operation changes the list only by the entity it names. */
  lemma ApplyOpMembers<E>(st: RegistryState<E>, op: EntityOperation<E>, key: E -> int, isPlayer: E -> bool)
    ensures forall x :: x in ApplyOp(st, op, key, isPlayer).entities ==> x in st.entities || x == op.Entity
  {
    var r := ApplyOp(st, op, key, isPlayer);
    forall x | x in r.entities ensures x in st.entities || x == op.Entity {
      assert x in multiset(r.entities);
      if op.IsAdd {
        assert x in multiset(st.entities + [op.Entity]);
        assert x in st.entities + [op.Entity];
      } else {
        RemoveFirstMultiset(st.entities, op.Entity);
        assert x in multiset(st.entities);
      }
    }
  }

  /** A property every listed and every queued entity has is kept by the
      flush. */
  lemma {:induction false} ApplyAllMembers<E>(st: RegistryState<E>, ops: seq<EntityOperation<E>>,
                                                key: E -> int, isPlayer: E -> bool, P: E -> bool)
    requires forall x :: x in st.entities ==> P(x)
    requires forall i :: 0 <= i < |ops| ==> P(ops[i].Entity)
    ensures forall x :: x in ApplyAll(st, ops, key, isPlayer).entities ==> P(x)
    decreases |ops|
  {
    if ops != [] {
      ApplyOpMembers(st, ops[0], key, isPlayer);
      ApplyAllMembers(ApplyOp(st, ops[0], key, isPlayer), ops[1..], key, isPlayer, P);
    }
  }

  /** The whole registry as a value: the applied state, the protection
      depth and the queue. */
  datatype Registry<E> = Registry(state: RegistryState<E>, depth: int, pending: seq<EntityOperation<E>>)

  /** AddEntity or RemoveEntity: queued while the list is protected,
      applied at once otherwise. */
  function Request<E(==)>(reg: Registry<E>, op: EntityOperation<E>, key: E -> int, isPlayer: E -> bool)
    : Registry<E>
  {
    if reg.depth > 0 then reg.(pending := reg.pending + [op])
    else reg.(state := ApplyOp(reg.state, op, key, isPlayer))
  }

  /** A series of requests, first to last. */
  function RequestAll<E(==)>(reg: Registry<E>, ops: seq<EntityOperation<E>>, key: E -> int, isPlayer: E -> bool)
    : Registry<E>
  {
    if ops == [] then reg
    else Request(RequestAll(reg, ops[..|ops| - 1], key, isPlayer), ops[|ops| - 1], key, isPlayer)
  }

  /** Requests made under protection only queue, in order; requests made
      without it are applied in order; either way the depth is unchanged. */
  lemma {:induction false} RequestAllSpec<E>(reg: Registry<E>, ops: seq<EntityOperation<E>>,
                                              key: E -> int, isPlayer: E -> bool)
    ensures reg.depth > 0 ==> RequestAll(reg, ops, key, isPlayer) == reg.(pending := reg.pending + ops)
    ensures reg.depth <= 0 ==> RequestAll(reg, ops, key, isPlayer) == reg.(state := ApplyAll(reg.state, ops, key, isPlayer))
  {
    if ops != [] {
      var front := ops[..|ops| - 1];
      var op := ops[|ops| - 1];
      RequestAllSpec(reg, front, key, isPlayer);
      assert ops == front + [op];
      ApplyAllSnoc(reg.state, front, op, key, isPlayer);
    }
  }

  // ---------------------------------------------------------------------
  // The registry object

  datatype RegistryError = NotProtected

  class EntityRegistry<E(==)> {
    const RenderOrder: E -> int
    const IsPlayer: E -> bool
    var entities: seq<E>
    var Player: Option<E>
    var entityListProtectionDepth: int
    var pendingEntityOperations: seq<EntityOperation<E>>

    function State(): RegistryState<E>
      reads this
    {
      RegistryState(entities, Player)
    }

    function Snapshot(): Registry<E>
      reads this
    {
      Registry(State(), entityListProtectionDepth, pendingEntityOperations)
    }

    /** Depth 0 means nothing is pending: the fact the Debug.Assert in
        ProtectEntitiesList checks. */
    ghost predicate Valid()
      reads this
    {
      && entityListProtectionDepth >= 0
      && (entityListProtectionDepth == 0 ==> pendingEntityOperations == [])
      && StateInv(State(), RenderOrder, IsPlayer)
    }

    constructor(renderOrder: E -> int, isPlayer: E -> bool)
      ensures Valid() && RenderOrder == renderOrder && IsPlayer == isPlayer
      ensures entities == [] && Player.None?
      ensures entityListProtectionDepth == 0 && pendingEntityOperations == []
    {
      RenderOrder := renderOrder;
      IsPlayer := isPlayer;
      entities := [];
      Player := None;
      entityListProtectionDepth := 0;
      pendingEntityOperations := [];
    }

    method ProtectEntitiesList()
      requires Valid()
      modifies this
      ensures Valid()
      ensures entityListProtectionDepth == old(entityListProtectionDepth) + 1
      ensures State() == old(State()) && pendingEntityOperations == old(pendingEntityOperations)
    {
      if entityListProtectionDepth == 0 {
        assert pendingEntityOperations == [];
      }
      entityListProtectionDepth := entityListProtectionDepth + 1;
    }

    /** Ends one level of protection; the outermost end applies the pending
        operations first to last and clears the queue. */
    method EndProtectEntitiesList() returns (r: Outcome<RegistryError>)
      requires Valid()
      modifies this
      ensures Valid()
      ensures r.Fail? <==> old(entityListProtectionDepth) == 0
      ensures r.Fail? ==> State() == old(State()) && entityListProtectionDepth == 0
      ensures r.Pass? ==> entityListProtectionDepth == old(entityListProtectionDepth) - 1
      ensures r.Pass? && entityListProtectionDepth == 0 ==>
                State() == ApplyAll(old(State()), old(pendingEntityOperations), RenderOrder, IsPlayer)
      ensures r.Pass? && entityListProtectionDepth > 0 ==>
                State() == old(State()) && pendingEntityOperations == old(pendingEntityOperations)
    {
      if entityListProtectionDepth == 0 {
        return Fail(NotProtected);
      }
      r := Pass;
      entityListProtectionDepth := entityListProtectionDepth - 1;
      if entityListProtectionDepth == 0 {
        var ops := pendingEntityOperations;
        pendingEntityOperations := [];
        ghost var reg0 := Snapshot();
        for i := 0 to |ops|
          invariant Valid()
          invariant Snapshot() == RequestAll(reg0, ops[..i], RenderOrder, IsPlayer)
        {
          assert ops[..i + 1][..i] == ops[..i];
          if ops[i].IsAdd {
            AddEntity(ops[i].Entity);
          } else {
            RemoveEntity(ops[i].Entity);
          }
        }
        RequestAllSpec(reg0, ops, RenderOrder, IsPlayer);
        assert ops[..|ops|] == ops;
      }
    }

    /** EndProtectEntitiesList after a protected stretch that only queued
        removals `ops`: the list can only lose entities, and the queue is
        either kept or cleared. */
    method EndProtectAfterRemovals(ghost reg0: Registry<E>, ghost ops: seq<EntityOperation<E>>)
      requires Valid() && reg0.depth >= 0 && (reg0.depth == 0 ==> reg0.pending == [])
      requires State() == reg0.state && entityListProtectionDepth == reg0.depth + 1
      requires pendingEntityOperations == reg0.pending + ops
      requires forall i :: 0 <= i < |ops| ==> !ops[i].IsAdd
      modifies this
      ensures Valid()
      ensures Snapshot() == RequestAll(reg0, ops, RenderOrder, IsPlayer)
      ensures forall x :: x in entities ==> x in old(entities)
      ensures pendingEntityOperations == [] || pendingEntityOperations == old(pendingEntityOperations)
    {
      if reg0.depth == 0 {
        assert pendingEntityOperations == ops;
        ApplyRemovalsShrinks(State(), pendingEntityOperations, RenderOrder, IsPlayer);
      }
      var _ := EndProtectEntitiesList();
      RequestAllSpec(reg0, ops, RenderOrder, IsPlayer);
    }

    /** Immediate when unprotected, queued otherwise. */
    method AddEntity(entity: E)
      requires Valid()
      modifies this
      ensures Valid()
      ensures entityListProtectionDepth == old(entityListProtectionDepth)
      ensures old(entityListProtectionDepth) > 0 ==>
                && pendingEntityOperations == old(pendingEntityOperations) + [EntityOperation(true, entity)]
                && State() == old(State())
      ensures old(entityListProtectionDepth) == 0 ==>
                && pendingEntityOperations == old(pendingEntityOperations)
                && State() == AddNow(old(State()), entity, RenderOrder, IsPlayer)
      ensures Snapshot() == Request(old(Snapshot()), EntityOperation(true, entity), RenderOrder, IsPlayer)
    {
      if entityListProtectionDepth > 0 {
        pendingEntityOperations := pendingEntityOperations + [EntityOperation(true, entity)];
        return;
      }
      InsertEntity(entity);
    }

    /** The unprotected branch of AddEntity: append, re-sort, and take the
        entity as the Player if there is none yet and it is one. */
    method InsertEntity(entity: E)
      requires StateInv(State(), RenderOrder, IsPlayer)
      modifies this`entities, this`Player
      ensures StateInv(State(), RenderOrder, IsPlayer)
      ensures State() == AddNow(old(State()), entity, RenderOrder, IsPlayer)
    {
      ghost var st0 := State();
      entities := entities + [entity];
      SortEntityRenderOrder();
      if Player.None? && IsPlayer(entity) {
        Player := Some(entity);
      }
      AddNowSpec(st0, entity, RenderOrder, IsPlayer);
    }

    /** Immediate when unprotected, queued otherwise. */
    method RemoveEntity(entity: E)
      requires Valid()
      modifies this
      ensures Valid()
      ensures entityListProtectionDepth == old(entityListProtectionDepth)
      ensures old(entityListProtectionDepth) > 0 ==>
                && pendingEntityOperations == old(pendingEntityOperations) + [EntityOperation(false, entity)]
                && State() == old(State())
      ensures old(entityListProtectionDepth) == 0 ==>
                && pendingEntityOperations == old(pendingEntityOperations)
                && State() == RemoveNow(old(State()), entity)
      ensures Snapshot() == Request(old(Snapshot()), EntityOperation(false, entity), RenderOrder, IsPlayer)
    {
      if entityListProtectionDepth > 0 {
        ghost var st0 := State();
        pendingEntityOperations := pendingEntityOperations + [EntityOperation(false, entity)];
        assert State() == st0;
        return;
      }
      ghost var st0 := State();
      RemoveNowSpec(st0, entity, RenderOrder, IsPlayer);
      entities := RemoveFirst(entities, entity);
      if Player == Some(entity) {
        Player := None;
      }
      assert State() == RemoveNow(st0, entity);
    }

    /** A full enumeration of GetEntities<T>: the entities that are a T, in
        list order, read under protection. `isT` is the `as T` test. */
    method GetEntitiesOf(isT: E -> bool) returns (r: seq<E>)
      requires Valid()
      modifies this
      ensures Valid()
      ensures r == Filter(old(entities), isT)
      ensures State() == old(State())
      ensures entityListProtectionDepth == old(entityListProtectionDepth)
      ensures pendingEntityOperations == old(pendingEntityOperations)
    {
      ProtectEntitiesList();
      r := [];
      for i := 0 to |entities|
        invariant r == Filter(entities[..i], isT)
        modifies {}
      {
        assert entities[..i + 1][..i] == entities[..i];
        if isT(entities[i]) {
          r := r + [entities[i]];
        }
      }
      assert entities[..|entities|] == entities;
      var _ := EndProtectEntitiesList();
      if entityListProtectionDepth == 0 {
        assert old(pendingEntityOperations) == [];
      }
    }

    /** A full enumeration of GetEntities(). */
    method GetEntities() returns (r: seq<E>)
      requires Valid()
      modifies this
      ensures Valid()
      ensures r == old(entities)
      ensures State() == old(State())
      ensures entityListProtectionDepth == old(entityListProtectionDepth)
      ensures pendingEntityOperations == old(pendingEntityOperations)
    {
      ProtectEntitiesList();
      r := [];
      for i := 0 to |entities|
        invariant r == entities[..i]
        modifies {}
      {
        r := r + [entities[i]];
      }
      var _ := EndProtectEntitiesList();
      if entityListProtectionDepth == 0 {
        assert old(pendingEntityOperations) == [];
      }
    }

    /** SortEntityRenderOrder: sorts by RenderOrder. */
    method SortEntityRenderOrder()
      modifies this`entities
      ensures entities == SortByKey(old(entities), RenderOrder)
      ensures SortedBy(entities, RenderOrder) && multiset(entities) == multiset(old(entities))
    {
      entities := SortByKey(entities, RenderOrder);
    }
  }
}

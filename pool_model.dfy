/** The keyed, reference-counted resource pool as values: one `Entry` per
    PoolValue, a map from id to entry for the pool, and one function per
    operation giving the result, the new pool and what the operation did to
    the outside world (calls of the creator, Dispose calls). The classes in
    module ResourcePool are proved to follow these functions; the lemmas
    here state what the pool promises its callers. */
module PoolModel {
  import opened Wrappers

  /** The name of a runtime type. */
  type TypeName = string

  /** A pooled object as the pool sees it: its identity, its runtime type and
      whether it implements IDisposable. */
  datatype Obj = Obj(Handle: nat, Type: TypeName, Disposable: bool)

  /** One constructor per throw site. */
  datatype PoolError =
    | WrongTypeAfterCollection  // Get: a dead entry recorded another type
    | WrongTypeWhileAlive       // Get: the live object is not a T
    | RessurectTypeMismatch     // Ressurect: new object of another type
    | RessurectNotDead          // Ressurect: old object still alive
    | NullCreation              // the creator returned null: GetType() on null
    | PairMismatch              // Drop: object is not the entry's Reference
    | UnknownId                 // Drop: no entry for the id
    | NoReferences              // DropReference: count already 0

  /** The state of one PoolValue. The weak reference is `target`, the object
      it was last pointed at, and `alive`, false once the garbage collector
      has reclaimed that object. */
  datatype Entry = Entry(
    target: Obj,
    alive: bool,
    ReferenceCount: int,
    RessurectionCount: int,
    ObjectType: TypeName,
    wasDisposed: bool)

  type Pool = map<string, Entry>

  /** The `Reference` getter: nothing once disposed or collected. */
  function Reference(e: Entry): (r: Option<Obj>)
    ensures e.wasDisposed ==> r.None?
    ensures r.Some? ==> r.value == e.target && e.alive
  {
    if e.wasDisposed || !e.alive then None else Some(e.target)
  }

  /** What every entry satisfies between operations. The last conjunct is
      why the two Debug.Asserts on `wasDisposed` can never fire. */
  ghost predicate EntryInv(e: Entry) {
    && e.ReferenceCount >= 0
    && e.RessurectionCount >= 0
    && e.target.Type == e.ObjectType
    && (e.wasDisposed ==> e.ReferenceCount == 0)
  }

  ghost predicate PoolInv(m: Pool) {
    forall id :: id in m ==> EntryInv(m[id])
  }

  /** The PoolValue constructor. */
  function NewEntry(obj: Obj): (e: Entry)
    ensures EntryInv(e)
    ensures Reference(e) == Some(obj)
    ensures e.ReferenceCount == 1 && e.RessurectionCount == 0 && e.ObjectType == obj.Type
  {
    Entry(obj, true, 1, 0, obj.Type, false)
  }

  /** PoolValue.Ressurect: only into a dead entry, only with an object of the
      recorded type; restarts the count at 1. */
  function RessurectEntry(e: Entry, newObj: Option<Obj>): (r: Result<Entry, PoolError>)
    ensures r.Success? <==> newObj.Some? && newObj.value.Type == e.ObjectType && Reference(e).None?
    ensures r.Success? ==> Reference(r.value) == newObj && r.value.ReferenceCount == 1
    ensures r.Success? ==> r.value.RessurectionCount == e.RessurectionCount + 1
    ensures r.Success? ==> r.value.ObjectType == e.ObjectType
    ensures r.Success? && EntryInv(e) ==> EntryInv(r.value)
  {
    if newObj.None? then Failure(NullCreation)
    else if newObj.value.Type != e.ObjectType then Failure(RessurectTypeMismatch)
    else if e.alive && !e.wasDisposed then Failure(RessurectNotDead)
    else Success(e.(target := newObj.value, alive := true, wasDisposed := false,
                    ReferenceCount := 1, RessurectionCount := e.RessurectionCount + 1))
  }

  /** PoolValue.GrabReference; its Debug.Assert is the requires. */
  function GrabEntry(e: Entry): (r: Entry)
    requires !e.wasDisposed
    ensures r.ReferenceCount == e.ReferenceCount + 1
    ensures Reference(r) == Reference(e) && r.ObjectType == e.ObjectType
    ensures EntryInv(e) ==> EntryInv(r)
  {
    e.(ReferenceCount := e.ReferenceCount + 1)
  }

  /** An entry after DropReference, and the object it disposed, if any. */
  datatype Dropped = Dropped(entry: Entry, disposed: Option<Obj>)

  /** PoolValue.DropReference. The Debug.Assert(!wasDisposed) at count 0 is
      implied by EntryInv, which is therefore the requires. */
  function DropEntry(e: Entry): (r: Result<Dropped, PoolError>)
    requires EntryInv(e)
    ensures r.Success? <==> e.ReferenceCount > 0
    ensures r.Success? ==> r.value.entry.ReferenceCount == e.ReferenceCount - 1
    ensures r.Success? ==> EntryInv(r.value.entry)
    ensures r.Success? ==> (r.value.entry.wasDisposed <==> e.ReferenceCount == 1)
    ensures r.Success? ==> (r.value.disposed.Some? <==> e.ReferenceCount == 1 && e.alive && e.target.Disposable)
    ensures r.Success? && r.value.disposed.Some? ==> r.value.disposed.value == e.target
  {
    if e.ReferenceCount == 0 then Failure(NoReferences)
    else if e.ReferenceCount - 1 == 0 then
      Success(Dropped(e.(ReferenceCount := 0, wasDisposed := true),
                      if e.alive && e.target.Disposable then Some(e.target) else None))
    else
      Success(Dropped(e.(ReferenceCount := e.ReferenceCount - 1), None))
  }

  /** What Get returned, the pool afterwards and how often it called the
      creator. */
  datatype GetOutcome = GetOutcome(result: Result<Obj, PoolError>, pool: Pool, creatorCalls: nat)

  /** ResourcePool.Get<T>(id, creator). `made` is what the creator returns
      when called (None for null); `isInstance(t, T)` is the runtime test
      behind `as T`, true when type t is T or derives from it. */
  function Get(m: Pool, id: string, T: TypeName,
               isInstance: (TypeName, TypeName) -> bool, made: Option<Obj>): (r: GetOutcome)
    ensures PoolInv(m) ==> PoolInv(r.pool)
    ensures r.creatorCalls <= 1
    ensures r.pool.Keys == m.Keys + {id} || r.pool == m
    ensures forall k :: k in m && k != id ==> k in r.pool && r.pool[k] == m[k]
    // an absent id: the creator is called once and its object stored fresh
    ensures id !in m ==> r.creatorCalls == 1 && (r.result.Success? <==> made.Some?)
    ensures id !in m && made.Some? ==>
              && r.result == Success(made.value) && id in r.pool
              && r.pool[id].ReferenceCount == 1 && r.pool[id].RessurectionCount == 0
              && r.pool[id].ObjectType == made.value.Type && Reference(r.pool[id]) == made
    // a live entry: no creator call; the very object if it is a T, else an error
    ensures id in m && Reference(m[id]).Some? ==> r.creatorCalls == 0
    ensures id in m && Reference(m[id]).Some? && !isInstance(m[id].target.Type, T) ==>
              r.result == Failure(WrongTypeWhileAlive) && r.pool == m
    ensures id in m && Reference(m[id]).Some? && isInstance(m[id].target.Type, T) ==>
              && r.result == Success(m[id].target)
              && r.pool[id] == m[id].(ReferenceCount := m[id].ReferenceCount + 1)
    // a dead entry: only the recorded type itself may resurrect it
    ensures id in m && Reference(m[id]).None? && m[id].ObjectType != T ==>
              r.result == Failure(WrongTypeAfterCollection) && r.pool == m && r.creatorCalls == 0
    ensures id in m && Reference(m[id]).None? && m[id].ObjectType == T ==>
              && r.creatorCalls == 1
              && (r.result.Success? <==> made.Some? && made.value.Type == T)
              && (r.result.Failure? ==> r.pool == m)
              && (r.result.Success? ==>
                    && r.result.value == made.value && Reference(r.pool[id]) == made
                    && r.pool[id].ReferenceCount == 1
                    && r.pool[id].RessurectionCount == m[id].RessurectionCount + 1)
  {
    if id in m then
      var e := m[id];
      match Reference(e)
      case None =>
        if e.ObjectType != T then GetOutcome(Failure(WrongTypeAfterCollection), m, 0)
        else
          var res := RessurectEntry(e, made);
          if res.Failure? then GetOutcome(Failure(res.error), m, 1)
          else GetOutcome(Success(made.value), m[id := res.value], 1)
      case Some(obj) =>
        if !isInstance(obj.Type, T) then GetOutcome(Failure(WrongTypeWhileAlive), m, 0)
        else GetOutcome(Success(obj), m[id := GrabEntry(e)], 0)
    else if made.None? then GetOutcome(Failure(NullCreation), m, 1)
    else GetOutcome(Success(made.value), m[id := NewEntry(made.value)], 1)
  }

  /** What Drop did, the pool afterwards and the object it disposed. */
  datatype DropOutcome = DropOutcome(result: Outcome<PoolError>, pool: Pool, disposed: Option<Obj>)

  /** ResourcePool.Drop(id, obj); None stands for a null argument. */
  function Drop(m: Pool, id: string, obj: Option<Obj>): (r: DropOutcome)
    requires PoolInv(m)
    ensures PoolInv(r.pool)
    ensures r.pool.Keys == m.Keys
    ensures forall k :: k in m && k != id ==> r.pool[k] == m[k]
    ensures r.result.Fail? ==> r.pool == m && r.disposed.None?
    ensures r.disposed.Some? ==> r.disposed == obj
    ensures r.result == Fail(UnknownId) <==> id !in m
    ensures r.result == Fail(PairMismatch) <==> id in m && Reference(m[id]) != obj
    ensures r.result == Fail(NoReferences) <==> id in m && Reference(m[id]) == obj && m[id].ReferenceCount == 0
    ensures r.result.Pass? ==>
              && r.pool[id].ReferenceCount == m[id].ReferenceCount - 1
              && (r.pool[id].wasDisposed <==> m[id].ReferenceCount == 1)
              && (r.disposed.Some? <==> m[id].ReferenceCount == 1 && obj.Some? && obj.value.Disposable)
  {
    if id !in m then DropOutcome(Fail(UnknownId), m, None)
    else if Reference(m[id]) != obj then DropOutcome(Fail(PairMismatch), m, None)
    else
      match DropEntry(m[id])
      case Failure(err) => DropOutcome(Fail(err), m, None)
      case Success(d) => DropOutcome(Pass, m[id := d.entry], d.disposed)
  }

  /** The garbage collector reclaiming the object of entry `id`. */
  function Collect(m: Pool, id: string): (r: Pool)
    requires id in m
    ensures PoolInv(m) ==> PoolInv(r)
    ensures r.Keys == m.Keys && Reference(r[id]).None?
    ensures forall k :: k in m && k != id ==> r[k] == m[k]
  {
    m[id := m[id].(alive := false)]
  }

  // ---------------------------------------------------------------------
  // Pool-wide disposal

  /** A Dispose() call the pool made on a pooled object, and its id. */
  datatype Disposal = Disposal(id: string, obj: Obj)

  /** An entry whose Reference is an IDisposable: what Dispose(true) disposes. */
  predicate LiveDisposable(e: Entry) {
    Reference(e).Some? && e.target.Disposable
  }

  /** The Dispose calls of Dispose(true) when it visits the ids in `order`. */
  function ForceDisposals(m: Pool, order: seq<string>): seq<Disposal>
  {
    if order == [] then []
    else
      var k := order[|order| - 1];
      var front := ForceDisposals(m, order[..|order| - 1]);
      if k in m && LiveDisposable(m[k]) then front + [Disposal(k, m[k].target)] else front
  }

  lemma ForceDisposalsSnoc(m: Pool, order: seq<string>, k: string)
    ensures ForceDisposals(m, order + [k]) ==
              if k in m && LiveDisposable(m[k]) then ForceDisposals(m, order) + [Disposal(k, m[k].target)]
              else ForceDisposals(m, order)
  {
    assert (order + [k])[..|order|] == order;
  }

  function CountId(ds: seq<Disposal>, id: string): nat {
    if ds == [] then 0
    else CountId(ds[..|ds| - 1], id) + (if ds[|ds| - 1].id == id then 1 else 0)
  }

  lemma {:induction false} CountIdAppend(a: seq<Disposal>, b: seq<Disposal>, id: string)
    ensures CountId(a + b, id) == CountId(a, id) + CountId(b, id)
    decreases |b|
  {
    if b == [] {
      assert a + b == a;
    } else {
      assert (a + b)[..|a + b| - 1] == a + b[..|b| - 1];
      CountIdAppend(a, b[..|b| - 1], id);
    }
  }

  /** Dispose(true) visiting every id once disposes the object of every entry
      that is still live and disposable exactly once, whatever its reference
      count, and nothing else. */
  lemma {:induction false} ForceDisposalsExactlyOnce(m: Pool, order: seq<string>, id: string)
    requires forall i, j :: 0 <= i < j < |order| ==> order[i] != order[j]
    ensures CountId(ForceDisposals(m, order), id)
              == if id in order && id in m && LiveDisposable(m[id]) then 1 else 0
    ensures forall d :: d in ForceDisposals(m, order) ==> d.id in m && d.obj == m[d.id].target
  {
    if order != [] {
      var k := order[|order| - 1];
      var front := order[..|order| - 1];
      ForceDisposalsExactlyOnce(m, front, id);
      if k in m && LiveDisposable(m[k]) {
        var last := [Disposal(k, m[k].target)];
        CountIdAppend(ForceDisposals(m, front), last, id);
        assert CountId(last, id) == if k == id then 1 else 0 by {
          assert last[..0] == [];
        }
      }
      assert id in order <==> id in front || id == k;
      assert k !in front;
    }
  }

  /** Dispose(disposing) on a pool whose `Disposed` flag is `wasDisposedPool`,
      as the source writes it: the guard reads the flag but nothing ever sets
      it, so the flag comes back unchanged. */
  function DisposeAsWritten(m: Pool, wasDisposedPool: bool, disposing: bool, order: seq<string>)
    : (r: (bool, seq<Disposal>))
    ensures r.0 == wasDisposedPool
  {
    if wasDisposedPool || !disposing then (wasDisposedPool, [])
    else (wasDisposedPool, ForceDisposals(m, order))
  }

  /** Dispose(disposing) with the flag set at the end, as the guard intends. */
  function DisposeCorrected(m: Pool, wasDisposedPool: bool, disposing: bool, order: seq<string>)
    : (r: (bool, seq<Disposal>))
    ensures r.0
    ensures wasDisposedPool ==> r.1 == []
  {
    if wasDisposedPool then (true, [])
    else (true, if disposing then ForceDisposals(m, order) else [])
  }

  /** As written, a second Dispose() disposes a live resource again: a pool
      holding one live disposable cube disposes it on both calls. */
  lemma DisposeAsWrittenRepeats()
    ensures var cube := Obj(0, "GeometricPrimitive", true);
            var m := map["Mesh/Cube" := NewEntry(cube)];
            var first := DisposeAsWritten(m, false, true, ["Mesh/Cube"]);
            var second := DisposeAsWritten(m, first.0, true, ["Mesh/Cube"]);
            first.1 == [Disposal("Mesh/Cube", cube)] && second.1 == [Disposal("Mesh/Cube", cube)]
  {
    var cube := Obj(0, "GeometricPrimitive", true);
    var m := map["Mesh/Cube" := NewEntry(cube)];
    assert ["Mesh/Cube"][..0] == [];
    assert ForceDisposals(m, ["Mesh/Cube"]) == [Disposal("Mesh/Cube", cube)];
  }

  /** With the flag set, whatever the first call disposed, the second call
      disposes nothing. */
  lemma {:induction false} DisposeCorrectedOnce(m: Pool, pool: bool, order1: seq<string>, order2: seq<string>)
    ensures var first := DisposeCorrected(m, pool, true, order1);
            DisposeCorrected(m, first.0, true, order2).1 == []
  {
  }

  // ---------------------------------------------------------------------
  // Series of requests

  /** The results of successive Gets of one id, the final pool and the total
      number of creator calls. */
  datatype GetSeriesOutcome = GetSeriesOutcome(results: seq<Result<Obj, PoolError>>, pool: Pool, creatorCalls: nat)

  function GetSeries(m: Pool, id: string, T: TypeName,
                     isInstance: (TypeName, TypeName) -> bool, made: seq<Option<Obj>>): (r: GetSeriesOutcome)
    ensures |r.results| == |made|
    ensures PoolInv(m) ==> PoolInv(r.pool)
    ensures m.Keys <= r.pool.Keys
    decreases |made|
  {
    if made == [] then GetSeriesOutcome([], m, 0)
    else
      var g := Get(m, id, T, isInstance, made[0]);
      var rest := GetSeries(g.pool, id, T, isInstance, made[1..]);
      GetSeriesOutcome([g.result] + rest.results, rest.pool, g.creatorCalls + rest.creatorCalls)
  }

  /** Gets of a live entry whose object is a T never call the creator, all
      return that very object and each adds one reference. */
  lemma {:induction false} GetsOfLiveEntry(m: Pool, id: string, T: TypeName,
                                          isInstance: (TypeName, TypeName) -> bool, made: seq<Option<Obj>>)
    requires id in m && Reference(m[id]).Some? && isInstance(m[id].target.Type, T)
    ensures var r := GetSeries(m, id, T, isInstance, made);
            && r.creatorCalls == 0
            && (forall i :: 0 <= i < |made| ==> r.results[i] == Success(m[id].target))
            && id in r.pool && Reference(r.pool[id]) == Reference(m[id])
            && r.pool[id].ReferenceCount == m[id].ReferenceCount + |made|
            && r.pool[id].RessurectionCount == m[id].RessurectionCount
    decreases |made|
  {
    if made != [] {
      var g := Get(m, id, T, isInstance, made[0]);
      GetsOfLiveEntry(g.pool, id, T, isInstance, made[1..]);
    }
  }

  /** The first Get of a new id calls the creator once; it and every
      following Get (with no collection in between) return that object, and
      the count equals the number of Gets, whatever the later creators
      would have built. */
  lemma {:induction false} GetsShareFirstObject(m: Pool, id: string, T: TypeName,
                                               isInstance: (TypeName, TypeName) -> bool, made: seq<Option<Obj>>)
    requires id !in m
    requires |made| >= 1 && made[0].Some? && isInstance(made[0].value.Type, T)
    ensures var r := GetSeries(m, id, T, isInstance, made);
            && r.creatorCalls == 1
            && (forall i :: 0 <= i < |made| ==> r.results[i] == Success(made[0].value))
            && id in r.pool && r.pool[id].ReferenceCount == |made|
            && r.pool[id].RessurectionCount == 0
  {
    var g := Get(m, id, T, isInstance, made[0]);
    assert g.pool[id] == NewEntry(made[0].value);
    GetsOfLiveEntry(g.pool, id, T, isInstance, made[1..]);
  }

  /** The results of successive Drops of one id, the final pool and the
      objects disposed along the way. */
  datatype DropSeriesOutcome = DropSeriesOutcome(results: seq<Outcome<PoolError>>, pool: Pool, disposed: seq<Obj>)

  function DropSeries(m: Pool, id: string, objs: seq<Option<Obj>>): (r: DropSeriesOutcome)
    requires PoolInv(m)
    ensures |r.results| == |objs| && PoolInv(r.pool)
    decreases |objs|
  {
    if objs == [] then DropSeriesOutcome([], m, [])
    else
      var d := Drop(m, id, objs[0]);
      var rest := DropSeries(d.pool, id, objs[1..]);
      DropSeriesOutcome([d.result] + rest.results, rest.pool,
                        if d.disposed.Some? then [d.disposed.value] + rest.disposed else rest.disposed)
  }

  /** Dropping an entry that holds `n` references to a live object `n` times
      with that object succeeds every time and disposes the object exactly
      once, on the last Drop (if it is disposable); the entry then counts 0
      references and a further Drop with the same object fails the identity
      check. `objs` is the n Drop arguments. */
  lemma DropsDisposeOnceAtZero(m: Pool, id: string, o: Obj, objs: seq<Option<Obj>>)
    requires PoolInv(m) && id in m && Reference(m[id]) == Some(o)
    requires m[id].ReferenceCount == |objs| >= 1
    requires forall i :: 0 <= i < |objs| ==> objs[i] == Some(o)
    ensures var r := DropSeries(m, id, objs);
            && (forall i :: 0 <= i < |objs| ==> r.results[i] == Pass)
            && r.disposed == (if o.Disposable then [o] else [])
            && id in r.pool && r.pool[id].ReferenceCount == 0 && r.pool[id].wasDisposed
            && Drop(r.pool, id, Some(o)).result == Fail(PairMismatch)
  {
    DropsOfLiveObject(m, id, o, objs);
  }

  /** The n Drops of DropsDisposeOnceAtZero, without the final one. */
  lemma {:induction false} DropsOfLiveObject(m: Pool, id: string, o: Obj, objs: seq<Option<Obj>>)
    requires PoolInv(m) && id in m && Reference(m[id]) == Some(o)
    requires m[id].ReferenceCount == |objs| >= 1
    requires forall i :: 0 <= i < |objs| ==> objs[i] == Some(o)
    ensures var r := DropSeries(m, id, objs);
            && (forall i :: 0 <= i < |objs| ==> r.results[i] == Pass)
            && r.disposed == (if o.Disposable then [o] else [])
            && id in r.pool && r.pool[id].ReferenceCount == 0 && r.pool[id].wasDisposed
    decreases |objs|
  {
    var d := Drop(m, id, objs[0]);
    DropOfLiveObject(m, id, o);
    var rest := DropSeries(d.pool, id, objs[1..]);
    var r := DropSeries(m, id, objs);
    assert r.results == [Pass] + rest.results && r.pool == rest.pool;
    if |objs| > 1 {
      DropsOfLiveObject(d.pool, id, o, objs[1..]);
      assert r.disposed == rest.disposed;
      forall i | 0 <= i < |objs| ensures r.results[i] == Pass {
        if i > 0 {
          assert r.results[i] == rest.results[i - 1];
        }
      }
    } else {
      assert rest.pool == d.pool && rest.disposed == [];
      assert r.disposed == if o.Disposable then [o] else [] by {
        assert [o] + [] == [o];
      }
    }
  }

  /** One Drop of the live object of an entry with references left. */
  lemma DropOfLiveObject(m: Pool, id: string, o: Obj)
    requires PoolInv(m) && id in m && Reference(m[id]) == Some(o) && m[id].ReferenceCount >= 1
    ensures var d := Drop(m, id, Some(o));
            && d.result == Pass && id in d.pool
            && d.pool[id].ReferenceCount == m[id].ReferenceCount - 1
            && d.disposed == (if m[id].ReferenceCount == 1 && o.Disposable then Some(o) else None)
            && (m[id].ReferenceCount > 1 ==> Reference(d.pool[id]) == Some(o))
            && (m[id].ReferenceCount == 1 ==> d.pool[id].wasDisposed && Reference(d.pool[id]).None?)
  {
  }

  /** After the last reference is dropped, Get of the recorded type builds a
      new object, counts one reference and records the resurrection. */
  lemma GetResurrectsDisposedEntry(m: Pool, id: string, isInstance: (TypeName, TypeName) -> bool, newObj: Obj)
    requires PoolInv(m) && id in m && m[id].wasDisposed
    requires newObj.Type == m[id].ObjectType
    ensures var g := Get(m, id, m[id].ObjectType, isInstance, Some(newObj));
            && g.result == Success(newObj) && g.creatorCalls == 1
            && g.pool[id].ReferenceCount == 1
            && g.pool[id].RessurectionCount == m[id].RessurectionCount + 1
            && Reference(g.pool[id]) == Some(newObj)
  {
  }
}

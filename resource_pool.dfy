/** The pool's objects: a PoolValue per pooled resource and the ResourcePool
    that maps ids to them. Each method is proved to do to the abstract state
    `Model()` what the matching function of PoolModel does to a value, so the
    lemmas of PoolModel hold of every run of these methods. The weak
    reference is the pair `target`/`alive`; the garbage collector is the
    explicit `Collect` step. */
module ResourcePool {
  import opened Wrappers
  import opened PoolModel

  /** A pool that agrees with `m0` on every id but `id`, where it holds
      `v`, is the update of `m0` at `id`. */
  lemma UpdatedAt(m1: Pool, m0: Pool, id: string, v: Entry)
    requires id in m0 && m1.Keys == m0.Keys && m1[id] == v
    requires forall k :: k in m0 && k != id ==> m1[k] == m0[k]
    ensures m1 == m0[id := v]
  {
  }

  class PoolValue {
    var target: Obj
    var alive: bool
    var ReferenceCount: int
    var RessurectionCount: int
    var ObjectType: TypeName
    var wasDisposed: bool

    function Model(): Entry
      reads this
    {
      Entry(target, alive, ReferenceCount, RessurectionCount, ObjectType, wasDisposed)
    }

    /** Nothing once disposed, otherwise the target while it lives. */
    function Reference(): (r: Option<Obj>)
      reads this
      ensures wasDisposed ==> r.None?
      ensures r.Some? ==> r.value == target && alive
    {
      PoolModel.Reference(Model())
    }

    /** new PoolValue(obj) for a non-null obj. */
    constructor(obj: Obj)
      ensures Model() == NewEntry(obj)
    {
      target := obj;
      alive := true;
      ReferenceCount := 1;
      RessurectionCount := 0;
      ObjectType := obj.Type;
      wasDisposed := false;
    }

    method Ressurect(newObj: Option<Obj>) returns (r: Outcome<PoolError>)
      modifies this
      ensures var res := RessurectEntry(old(Model()), newObj);
              && (r.Pass? <==> res.Success?)
              && (res.Failure? ==> r == Fail(res.error) && Model() == old(Model()))
              && (res.Success? ==> Model() == res.value)
    {
      if newObj.None? {
        return Fail(NullCreation);
      }
      if newObj.value.Type != ObjectType {
        return Fail(RessurectTypeMismatch);
      }
      if alive && !wasDisposed {
        return Fail(RessurectNotDead);
      }
      wasDisposed := false;
      target := newObj.value;
      alive := true;
      ReferenceCount := 1;
      RessurectionCount := RessurectionCount + 1;
      r := Pass;
    }

    method GrabReference()
      requires !wasDisposed
      modifies this
      ensures Model() == GrabEntry(old(Model()))
    {
      ReferenceCount := ReferenceCount + 1;
    }

    /** Returns the object it called Dispose() on, if any. */
    method DropReference() returns (r: Outcome<PoolError>, disposed: Option<Obj>)
      requires EntryInv(Model())
      modifies this
      ensures var res := DropEntry(old(Model()));
              && (r.Pass? <==> res.Success?)
              && (res.Failure? ==> r == Fail(res.error) && Model() == old(Model()) && disposed.None?)
              && (res.Success? ==> Model() == res.value.entry && disposed == res.value.disposed)
    {
      if ReferenceCount == 0 {
        return Fail(NoReferences), None;
      }
      ReferenceCount := ReferenceCount - 1;
      disposed := None;
      if ReferenceCount == 0 {
        if alive && target.Disposable {
          disposed := Some(target);
        }
        wasDisposed := true;
      }
      r := Pass;
    }

    /** The garbage collector reclaiming the weakly referenced object. */
    method Collect()
      modifies this
      ensures Model() == old(Model()).(alive := false)
    {
      alive := false;
    }
  }

  class ResourcePool {
    var pool: map<string, PoolValue>
    var Disposed: bool
    /** Every Dispose() call the pool has made on a pooled object, in order. */
    ghost var Disposals: seq<Disposal>

    function Model(): Pool
      reads this`pool, pool.Values
    {
      map k | k in pool :: pool[k].Model()
    }

    /** Distinct ids own distinct PoolValues, and every entry keeps EntryInv. */
    ghost predicate Valid()
      reads this`pool, pool.Values
    {
      && (forall a, b :: a in pool && b in pool && a != b ==> pool[a] != pool[b])
      && PoolInv(Model())
    }

    constructor()
      ensures Valid() && Model() == map[] && !Disposed && Disposals == []
    {
      pool := map[];
      Disposed := false;
      Disposals := [];
    }

    /** Get<T>(id, creator). `made` is what the creator returns if called;
        `creatorCalls` is how often it was called. */
    method Get(id: string, T: TypeName, isInstance: (TypeName, TypeName) -> bool, made: Option<Obj>)
      returns (r: Result<Obj, PoolError>, creatorCalls: nat)
      requires Valid()
      modifies this`pool, pool.Values
      ensures Valid()
      ensures var g := PoolModel.Get(old(Model()), id, T, isInstance, made);
              r == g.result && creatorCalls == g.creatorCalls && Model() == g.pool
    {
      if id in pool {
        r, creatorCalls := GetPooled(id, T, isInstance, made);
      } else {
        r, creatorCalls := GetNew(id, T, isInstance, made);
      }
    }

    /** Get<T>(id, creator) for an id the pool does not hold: the creator's
        object, if non-null, is pooled under `id` with one reference. */
    method GetNew(id: string, T: TypeName, isInstance: (TypeName, TypeName) -> bool, made: Option<Obj>)
      returns (r: Result<Obj, PoolError>, creatorCalls: nat)
      requires Valid() && id !in pool
      modifies this`pool
      ensures Valid()
      ensures var g := PoolModel.Get(old(Model()), id, T, isInstance, made);
              r == g.result && creatorCalls == g.creatorCalls && Model() == g.pool
    {
      ghost var m0 := Model();
      creatorCalls := 1;
      if made.None? {
        r := Failure(NullCreation);
      } else {
        var poolValue := new PoolValue(made.value);
        pool := pool[id := poolValue];
        r := Success(made.value);
        assert Model() == m0[id := poolValue.Model()];
      }
    }

    /** Get<T>(id, creator) for an id the pool already holds: the live
        object if its type fits, else the creator's object resurrecting
        the entry, if it was collected. */
    method GetPooled(id: string, T: TypeName, isInstance: (TypeName, TypeName) -> bool, made: Option<Obj>)
      returns (r: Result<Obj, PoolError>, creatorCalls: nat)
      requires Valid() && id in pool
      modifies pool.Values
      ensures Valid()
      ensures var g := PoolModel.Get(old(Model()), id, T, isInstance, made);
              r == g.result && creatorCalls == g.creatorCalls && Model() == g.pool
    {
      ghost var m0 := Model();
      var poolValue := pool[id];
      assert m0[id] == poolValue.Model();
      var retObject := poolValue.Reference();
      if retObject.None? {
        creatorCalls := 0;
        if poolValue.ObjectType != T {
          r := Failure(WrongTypeAfterCollection);
        } else {
          creatorCalls := 1;
          var o := poolValue.Ressurect(made);
          r := if o.Fail? then Failure(o.error) else Success(made.value);
        }
      } else if !isInstance(retObject.value.Type, T) {
        r, creatorCalls := Failure(WrongTypeWhileAlive), 0;
      } else {
        poolValue.GrabReference();
        r, creatorCalls := Success(retObject.value), 0;
      }
      assert forall k :: k in pool && k != id ==> pool[k] != poolValue;
      UpdatedAt(Model(), m0, id, poolValue.Model());
    }

    /** Drop<T>(id, obj); None stands for a null obj. */
    method Drop(id: string, obj: Option<Obj>) returns (r: Outcome<PoolError>)
      requires Valid()
      modifies this`Disposals, pool.Values
      ensures Valid()
      ensures var d := PoolModel.Drop(old(Model()), id, obj);
              && r == d.result && Model() == d.pool
              && Disposals == if d.disposed.Some? then old(Disposals) + [Disposal(id, d.disposed.value)] else old(Disposals)
    {
      if id !in pool {
        return Fail(UnknownId);
      }
      var poolValue := pool[id];
      assert Model()[id] == poolValue.Model();
      if poolValue.Reference() != obj {
        return Fail(PairMismatch);
      }
      ghost var m0 := Model();
      var disposed;
      r, disposed := poolValue.DropReference();
      if disposed.Some? {
        Disposals := Disposals + [Disposal(id, disposed.value)];
      }
      assert forall k :: k in pool && k != id ==> pool[k] != poolValue;
      UpdatedAt(Model(), m0, id, poolValue.Model());
    }

    /** The garbage collector reclaiming the object pooled under `id`. */
    method Collect(id: string)
      requires Valid() && id in pool
      modifies pool[id]
      ensures Valid()
      ensures Model() == PoolModel.Collect(old(Model()), id)
    {
      pool[id].Collect();
      assert Model() == old(Model())[id := pool[id].Model()];
    }

    /** Dispose(): Dispose(true). */
    method Dispose() returns (ghost order: seq<string>)
      modifies this`Disposed, this`Disposals
      ensures Disposed && Model() == old(Model())
      ensures forall i, j :: 0 <= i < j < |order| ==> order[i] != order[j]
      ensures forall k :: k in order <==> !old(Disposed) && k in pool
      ensures Disposals == old(Disposals) + DisposeCorrected(old(Model()), old(Disposed), true, order).1
    {
      order := DisposeWith(true);
    }

    /** One step of Dispose(true): the object pooled under `k` is disposed
        if it is alive and IDisposable. `visited` are the ids before it. */
    method DisposeEntry(k: string, ghost m0: Pool, ghost before: seq<Disposal>, ghost visited: seq<string>)
      requires k in pool && k in m0 && m0[k] == pool[k].Model()
      requires Disposals == before + ForceDisposals(m0, visited)
      modifies this`Disposals
      ensures Disposals == before + ForceDisposals(m0, visited + [k])
    {
      var obj := pool[k].Reference();
      ForceDisposalsSnoc(m0, visited, k);
      if obj.Some? && obj.value.Disposable {
        Disposals := Disposals + [Disposal(k, obj.value)];
        assert Disposals == before + (ForceDisposals(m0, visited) + [Disposal(k, obj.value)]);
      }
    }

    /** Dispose(disposing), setting the Disposed flag its guard tests. When
        disposing, every entry whose Reference is IDisposable is disposed,
        visiting the ids in an unspecified order, returned as `order`. */
    method DisposeWith(disposing: bool) returns (ghost order: seq<string>)
      modifies this`Disposed, this`Disposals
      ensures Disposed && Model() == old(Model())
      ensures forall i, j :: 0 <= i < j < |order| ==> order[i] != order[j]
      ensures forall k :: k in order <==> !old(Disposed) && disposing && k in pool
      ensures Disposals == old(Disposals) + DisposeCorrected(old(Model()), old(Disposed), disposing, order).1
    {
      order := [];
      if Disposed {
        return;
      }
      if disposing {
        ghost var m0 := Model();
        var remaining := pool.Keys;
        while remaining != {}
          invariant remaining <= pool.Keys
          invariant forall k :: k in order <==> k in pool && k !in remaining
          invariant forall i, j :: 0 <= i < j < |order| ==> order[i] != order[j]
          invariant Disposals == old(Disposals) + ForceDisposals(m0, order)
          decreases |remaining|
        {
          var k :| k in remaining;
          assert k in m0 && m0[k] == pool[k].Model();
          DisposeEntry(k, m0, old(Disposals), order);
          order := order + [k];
          remaining := remaining - {k};
        }
      }
      Disposed := true;
    }
  }
}

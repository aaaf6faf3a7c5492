/** Checkpointing of the simulated design (tb/checkpoint.py): collecting the
    paths of all registers of the design hierarchy once, taking a snapshot
    of their values, and writing a snapshot back. The simulator's object
    tree is a value (`Obj`); the register values the simulator holds and the
    module-level list of collected registers are the fields of a
    `Session`. */
module Checkpoint {
  import opened Signals

  /** The simulator object kinds the collection distinguishes. */
  datatype Kind = Module | NetArray | GenArray | Reg | Other

  /** An object of the elaborated design and the objects beneath it. */
  datatype Obj = Obj(name: string, kind: Kind, children: seq<Obj>)

  type Path = string

  /** A handle's path: the parent's path, a dot and the object's name. */
  function ChildPath(parent: Path, name: string): (p: Path)
    ensures |p| == |parent| + 1 + |name|
    ensures p[..|parent| + 1] == parent + "."
  {
    parent + "." + name
  }

  /** Objects whose contents are searched for registers. */
  predicate IsScope(k: Kind)
  {
    k == Module || k == NetArray || k == GenArray
  }

  /** The register paths found beneath the objects `cs` of the scope at
      `path`, in iteration order: scopes are entered depth first, registers
      are listed, every other object is skipped. */
  function Collected(cs: seq<Obj>, path: Path): seq<Path>
    decreases cs
  {
    if cs == [] then []
    else
      var c := cs[|cs| - 1];
      var p := ChildPath(path, c.name);
      Collected(cs[..|cs| - 1], path) +
      (if IsScope(c.kind) then Collected(c.children, p)
       else if c.kind == Reg then [p]
       else [])
  }

  /** Every collected path lies strictly beneath the scope it was collected
      from. */
  lemma {:induction false} CollectedBeneath(cs: seq<Obj>, path: Path)
    ensures forall i :: 0 <= i < |Collected(cs, path)| ==>
      |Collected(cs, path)[i]| >= |path| + 1 && Collected(cs, path)[i][..|path| + 1] == path + "."
    decreases cs
  {
    if cs != [] {
      var c := cs[|cs| - 1];
      var p := ChildPath(path, c.name);
      CollectedBeneath(cs[..|cs| - 1], path);
      if IsScope(c.kind) {
        CollectedBeneath(c.children, p);
        forall q | q in Collected(c.children, p)
          ensures |q| >= |path| + 1 && q[..|path| + 1] == path + "."
        {
          var i :| 0 <= i < |Collected(c.children, p)| && Collected(c.children, p)[i] == q;
          assert q[..|p| + 1] == p + ".";
          assert q[..|path| + 1] == q[..|p| + 1][..|path| + 1];
        }
      }
      var rest := Collected(cs[..|cs| - 1], path);
      var mine := if IsScope(c.kind) then Collected(c.children, p) else if c.kind == Reg then [p] else [];
      assert Collected(cs, path) == rest + mine;
      forall i | 0 <= i < |Collected(cs, path)|
        ensures |Collected(cs, path)[i]| >= |path| + 1 && Collected(cs, path)[i][..|path| + 1] == path + "."
      {
        if i >= |rest| {
          assert Collected(cs, path)[i] == mine[i - |rest|];
          assert mine[i - |rest|] in mine;
        } else {
          assert Collected(cs, path)[i] == rest[i];
        }
      }
    }
  }

  /** A design without scopes contributes exactly its registers, one path
      per register object, in order; anything beneath a register or an
      object of another kind is never visited. */
  lemma {:induction false} CollectedFlat(cs: seq<Obj>, path: Path)
    requires forall i :: 0 <= i < |cs| ==> !IsScope(cs[i].kind)
    ensures Collected(cs, path) ==
      seq(|RegsOf(cs)|, i requires 0 <= i < |RegsOf(cs)| => ChildPath(path, RegsOf(cs)[i].name))
  {
    if cs != [] {
      CollectedFlat(cs[..|cs| - 1], path);
      assert RegsOf(cs) == RegsOf(cs[..|cs| - 1]) + (if cs[|cs| - 1].kind == Reg then [cs[|cs| - 1]] else []);
    }
  }

  /** The register objects among `cs`, in order. */
  function RegsOf(cs: seq<Obj>): (r: seq<Obj>)
    ensures |r| <= |cs|
    ensures forall i :: 0 <= i < |r| ==> r[i].kind == Reg && r[i] in cs
  {
    if cs == [] then []
    else RegsOf(cs[..|cs| - 1]) + (if cs[|cs| - 1].kind == Reg then [cs[|cs| - 1]] else [])
  }

  /** Collecting a sequence of objects is collecting each part in turn. */
  lemma {:induction false} CollectedAppend(xs: seq<Obj>, ys: seq<Obj>, path: Path)
    ensures Collected(xs + ys, path) == Collected(xs, path) + Collected(ys, path)
    decreases |ys|
  {
    if ys != [] {
      var zs := xs + ys;
      assert zs[..|zs| - 1] == xs + ys[..|ys| - 1];
      assert zs[|zs| - 1] == ys[|ys| - 1];
      CollectedAppend(xs, ys[..|ys| - 1], path);
    } else {
      assert xs + ys == xs;
    }
  }

  /** The snapshot of the registers `regs` taken from the register values
      `values`. */
  function Snapshot(values: map<Path, BusValue>, regs: seq<Path>): (c: map<Path, BusValue>)
    requires forall i :: 0 <= i < |regs| ==> regs[i] in values
    ensures c.Keys == set i | 0 <= i < |regs| :: regs[i]
    ensures forall p :: p in c ==> c[p] == values[p]
  {
    map i | 0 <= i < |regs| :: regs[i] := values[regs[i]]
  }

  /** A map with the collected registers as keys and their values is the
      snapshot. */
  lemma SnapshotUnique(values: map<Path, BusValue>, regs: seq<Path>, c: map<Path, BusValue>)
    requires forall i :: 0 <= i < |regs| ==> regs[i] in values
    requires c.Keys == set i | 0 <= i < |regs| :: regs[i]
    requires forall p :: p in c ==> c[p] == values[p]
    ensures c == Snapshot(values, regs)
  {
  }

  /** Restoring a checkpoint of the present values changes nothing. */
  lemma RestoreOwnSnapshot(values: map<Path, BusValue>, regs: seq<Path>)
    requires forall i :: 0 <= i < |regs| ==> regs[i] in values
    ensures values + Snapshot(values, regs) == values
  {
    var c := Snapshot(values, regs);
    assert forall p :: p in values + c <==> p in values;
    assert forall p :: p in values + c ==> (values + c)[p] == values[p];
  }

  /** Whatever happened since, restoring a checkpoint puts every
      checkpointed register back to its value at checkpoint time and leaves
      every other register as it is now. */
  lemma RestoreRewinds(taken: map<Path, BusValue>, now: map<Path, BusValue>, regs: seq<Path>)
    requires forall i :: 0 <= i < |regs| ==> regs[i] in taken
    ensures forall i :: 0 <= i < |regs| ==> (now + Snapshot(taken, regs))[regs[i]] == taken[regs[i]]
    ensures forall p :: p in now && p !in regs ==> (now + Snapshot(taken, regs))[p] == now[p]
  {
    var c := Snapshot(taken, regs);
    forall p | p in now && p !in regs
      ensures (now + c)[p] == now[p]
    {
      assert forall i :: 0 <= i < |regs| ==> regs[i] != p;
      assert p !in c;
    }
  }

  /** Restoring the same checkpoint twice is restoring it once. */
  lemma RestoreIdempotent(values: map<Path, BusValue>, c: map<Path, BusValue>)
    ensures (values + c) + c == values + c
  {
  }

  /** The module-level list of collected registers together with the
      register values held by the simulator. */
  class Session {
    /** The collected registers, in collection order. */
    var hier: seq<Path>
    /** The value of every register of the running simulation. */
    var regs: map<Path, BusValue>

    /** Every collected path names a register of the simulation. */
    predicate Valid()
      reads this
    {
      forall i :: 0 <= i < |hier| ==> hier[i] in regs
    }

    /** A simulation with the given register values and nothing collected
        yet. */
    constructor (values: map<Path, BusValue>)
      ensures hier == [] && regs == values
      ensures Valid()
    {
      hier := [];
      regs := values;
    }

    /** Walks the objects beneath `entity`, whose path is `path`, appending
        the path of every register found to `hier`. */
    method GetCheckpointHier(entity: Obj, path: Path)
      modifies this
      ensures hier == old(hier) + Collected(entity.children, path)
      ensures regs == old(regs)
      decreases entity
    {
      var i := 0;
      while i < |entity.children|
        invariant 0 <= i <= |entity.children|
        invariant hier == old(hier) + Collected(entity.children[..i], path)
        invariant regs == old(regs)
      {
        var ii := entity.children[i];
        var hdl := ChildPath(path, ii.name);
        assert entity.children[..i + 1][..i] == entity.children[..i];
        if IsScope(ii.kind) {
          GetCheckpointHier(ii, hdl);
        } else if ii.kind == Reg {
          hier := hier + [hdl];
        }
        i := i + 1;
      }
      assert entity.children[..i] == entity.children;
    }

    /** The values of all collected registers, keyed by register. */
    method Checkpoint() returns (data: map<Path, BusValue>)
      requires Valid()
      ensures data == Snapshot(regs, hier)
    {
      data := map[];
      for i := 0 to |hier|
        invariant data.Keys == set j | 0 <= j < i :: hier[j]
        invariant forall p :: p in data ==> data[p] == regs[p]
      {
        data := data[hier[i] := regs[hier[i]]];
        assert data.Keys == (set j | 0 <= j < i :: hier[j]) + {hier[i]};
      }
      SnapshotUnique(regs, hier, data);
    }

    /** Writes every register of a checkpoint back; registers the
        checkpoint does not hold keep their values. */
    method Restore(data: map<Path, BusValue>)
      modifies this
      ensures regs == old(regs) + data
      ensures hier == old(hier)
      ensures old(Valid()) ==> Valid()
    {
      var todo := data.Keys;
      while todo != {}
        invariant todo <= data.Keys
        invariant hier == old(hier)
        invariant regs.Keys == old(regs).Keys + (data.Keys - todo)
        invariant forall p :: p in regs ==> regs[p] == if p in data && p !in todo then data[p] else old(regs)[p]
        decreases todo
      {
        var reg :| reg in todo;
        regs := regs[reg := data[reg]];
        todo := todo - {reg};
      }
      assert regs == old(regs) + data;
    }
  }
}

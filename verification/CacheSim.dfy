/** The cache simulator as the program runs it: a cache object whose table the
    methods update, the protocol as calls on two such objects, and the loop over
    a trace. */
module CacheSim {
  import opened Bits
  import opened CacheModel
  import S = CacheSystem
  import T = CacheTraces

  class CacheObject {
    const geo: Geometry
    const accessTime: nat
    var table: seq<seq<Entry>>
    var hits: nat
    var misses: nat

    ghost function Value(): Cache
      reads this
    {
      Cache(geo, accessTime, table, hits, misses)
    }

    ghost predicate Valid()
      reads this
    {
      TableOk(Value())
    }

    /** Sizes are in bits: of the cache, of its ways and of a block. */
    constructor (size: nat, waysBits: nat, blockSize: nat, accessTime: nat)
      requires T.SizesOk(size, waysBits, blockSize)
      ensures Valid() && Value() == T.EmptyCache(T.MakeGeometry(size, waysBits, blockSize), accessTime)
    {
      geo := T.MakeGeometry(size, waysBits, blockSize);
      this.accessTime := accessTime;
      table := seq(Pow2(T.MakeGeometry(size, waysBits, blockSize).setBits), _ => []);
      hits, misses := 0, 0;
    }

    /** The scan of a set for a tag, shared by all operations. */
    method Find(es: seq<Entry>, tag: nat) returns (p: nat)
      ensures p == IndexOf(es, tag)
    {
      p := 0;
      while p < |es|
        invariant p <= |es| && IndexFrom(es, tag, p) == IndexOf(es, tag)
      {
        if es[p].tag == tag {
          return;
        }
        p := p + 1;
      }
    }

    /** A hit moves the entry to the front. */
    method Seek(addr: nat, write: bool, writeback: bool) returns (hit: bool)
      requires Valid()
      modifies this
      ensures Valid() && (Value(), hit) == CacheModel.Seek(old(Value()), addr, write, writeback)
    {
      var addrSet := SetOf(geo, addr);
      var p := Find(table[addrSet], TagOf(geo, addr));
      if p < |table[addrSet]| {
        var newEntry := table[addrSet][p];
        ghost var rest := Without(table[addrSet], p);
        table := table[addrSet := table[addrSet][..p] + table[addrSet][p + 1..]];
        table := table[addrSet := [newEntry] + table[addrSet]];
        assert table == old(table)[addrSet := [newEntry] + rest];
        if write {
          table := table[addrSet := table[addrSet][0 := newEntry.(dirty := true)]];
          assert table[addrSet] == [newEntry.(dirty := true)] + rest;
          assert table == old(table)[addrSet := table[addrSet]];
        }
        if !writeback {
          hits := hits + 1;
        }
        return true;
      }
      if !writeback {
        misses := misses + 1;
      }
      return false;
    }

    /** dirty is the source's return value: the removed entry was dirty. */
    method AddAddress(addr: nat) returns (dirty: bool, removed: bool, removedAddr: Word)
      requires Valid()
      modifies this
      ensures Valid() && Value() == CacheModel.AddAddress(old(Value()), addr).0
      ensures var v := CacheModel.AddAddress(old(Value()), addr).1;
              && removed == v.Victim? && dirty == VictimDirty(v)
              && (removed ==> removedAddr == v.addr)
    {
      removed, removedAddr := false, 0;
      var addrSet := SetOf(geo, addr);
      var newEntry := Entry(TagOf(geo, addr), U32(addr), false);
      ghost var es := table[addrSet];
      table := table[addrSet := [newEntry] + table[addrSet]];
      if |table[addrSet]| > geo.ways {
        removed := true;
        var toDelete := table[addrSet][|table[addrSet]| - 1];
        table := table[addrSet := table[addrSet][..|table[addrSet]| - 1]];
        removedAddr := toDelete.addr;
        return toDelete.dirty, removed, removedAddr;
      }
      return false, removed, removedAddr;
    }

    method Remove(addr: nat)
      requires Valid()
      modifies this`table
      ensures Valid() && Value() == CacheModel.Remove(old(Value()), addr)
    {
      var addrSet := SetOf(geo, addr);
      var p := Find(table[addrSet], TagOf(geo, addr));
      if p < |table[addrSet]| {
        table := table[addrSet := table[addrSet][..p] + table[addrSet][p + 1..]];
      }
    }

    method MarkDirty(addr: nat, setDirty: bool)
      requires Valid()
      modifies this`table
      ensures Valid() && Value() == CacheModel.MarkDirty(old(Value()), addr, setDirty)
    {
      var addrSet := SetOf(geo, addr);
      var p := Find(table[addrSet], TagOf(geo, addr));
      if p < |table[addrSet]| {
        table := table[addrSet := table[addrSet][p := table[addrSet][p].(dirty := setDirty)]];
      }
    }
  }

  ghost function SystemOf(l1: CacheObject, l2: CacheObject): S.System
    reads l1, l2
  {
    S.System(l1.Value(), l2.Value())
  }

  /** The branch of handle_line for op 'r'. */
  method HandleRead(l1: CacheObject, l2: CacheObject, addr: nat, p: S.Params) returns (time: nat)
    requires l1 != l2 && l1.Valid() && l2.Valid()
    modifies l1, l2
    ensures l1.Valid() && l2.Valid()
    ensures (SystemOf(l1, l2), time) == S.HandleLine(p, old(SystemOf(l1, l2)), S.Access(false, addr))
  {
    var l1Hit := l1.Seek(addr, false, false);
    if l1Hit {
      return l1.accessTime;
    }
    var l2Hit := l2.Seek(addr, false, false);
    if l2Hit {
      var l1Dirty, _, removedAddr := l1.AddAddress(addr);
      if l1Dirty {
        var _ := l2.Seek(removedAddr, true, true);
      }
      return l1.accessTime + l2.accessTime;
    }
    var _, removed, removedAddr := l2.AddAddress(addr);
    if removed {
      l1.Remove(removedAddr);
    }
    var l1Dirty;
    l1Dirty, removed, removedAddr := l1.AddAddress(addr);
    if l1Dirty {
      var _ := l2.Seek(removedAddr, true, true);
    }
    return l1.accessTime + l2.accessTime + p.memCyc;
  }

  /** The branch of handle_line for op 'w'. */
  method HandleWrite(l1: CacheObject, l2: CacheObject, addr: nat, p: S.Params) returns (time: nat)
    requires l1 != l2 && l1.Valid() && l2.Valid()
    modifies l1, l2
    ensures l1.Valid() && l2.Valid()
    ensures (SystemOf(l1, l2), time) == S.HandleLine(p, old(SystemOf(l1, l2)), S.Access(true, addr))
  {
    var l1Hit := l1.Seek(addr, true, false);
    if l1Hit {
      return l1.accessTime;
    }
    var l2Hit := l2.Seek(addr, true, false);
    if l2Hit {
      if p.wrAlloc {
        var l1Dirty, _, removedAddr := l1.AddAddress(addr);
        l1.MarkDirty(addr, true);
        l2.MarkDirty(addr, false);
        if l1Dirty {
          var _ := l2.Seek(removedAddr, true, true);
        }
      }
      return l1.accessTime + l2.accessTime;
    }
    if p.wrAlloc {
      var _, removed, removedAddr := l2.AddAddress(addr);
      if removed {
        l1.Remove(removedAddr);
      }
      var l1Dirty;
      l1Dirty, removed, removedAddr := l1.AddAddress(addr);
      l1.MarkDirty(addr, true);
      if l1Dirty {
        var _ := l2.Seek(removedAddr, true, true);
      }
    }
    return l1.accessTime + l2.accessTime + p.memCyc;
  }

  /** handle_line: its two branches are one protocol, which tells writes apart. */
  method HandleLine(l1: CacheObject, l2: CacheObject, write: bool, addr: nat, p: S.Params) returns (time: nat)
    requires l1 != l2 && l1.Valid() && l2.Valid()
    modifies l1, l2
    ensures l1.Valid() && l2.Valid()
    ensures (SystemOf(l1, l2), time) == S.HandleLine(p, old(SystemOf(l1, l2)), S.Access(write, addr))
  {
    if !write {
      time := HandleRead(l1, l2, addr, p);
    } else {
      time := HandleWrite(l1, l2, addr, p);
    }
  }

  /** main's loop over a trace, on two new caches; h is the history of the run. */
  method RunTrace(l1: CacheObject, l2: CacheObject, trace: seq<S.Access>, p: S.Params, ghost u: T.Setup)
    returns (sumCycles: nat, counter: nat, ghost h: seq<T.Moment>)
    requires l1 != l2 && T.SetupOk(u) && u.p == p
    requires SystemOf(l1, l2) == T.EmptySystem(u.g1, u.t1, u.g2, u.t2)
    modifies l1, l2
    ensures T.IsRun(u, trace, h)
    ensures h[|trace|] == T.Moment(SystemOf(l1, l2), sumCycles) && counter == |trace|
  {
    sumCycles, counter := 0, 0;
    h := [T.Moment(SystemOf(l1, l2), 0)];
    while counter < |trace|
      invariant counter <= |trace| && |h| == counter + 1 && l1.Valid() && l2.Valid()
      invariant h[0] == T.Moment(T.EmptySystem(u.g1, u.t1, u.g2, u.t2), 0)
      invariant h[counter] == T.Moment(SystemOf(l1, l2), sumCycles)
      invariant forall i {:trigger T.StepsAt(u, trace, h, i)} :: 0 <= i < counter ==> T.StepsAt(u, trace, h, i)
    {
      var access := trace[counter];
      var currentTime := HandleLine(l1, l2, access.write, access.addr, p);
      sumCycles := sumCycles + currentTime;
      ghost var g := h + [T.Moment(SystemOf(l1, l2), sumCycles)];
      forall i | 0 <= i < counter + 1
        ensures T.StepsAt(u, trace, g, i)
      {
        if i < counter {
          assert T.StepsAt(u, trace, h, i);
        }
      }
      h := g;
      counter := counter + 1;
    }
  }
}

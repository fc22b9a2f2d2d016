/** The directory cache as the kernel runs it: its table and entries change in place. */
module DirectoryCache {
  import opened FsTypes
  import opened Spec = CacheSpec

  class DirectoryCache {
    var table: map<Key, EntryId>
    var entries: map<EntryId, Entry>
    var nextId: EntryId
    /** Every strong reference held outside the cache. */
    ghost var handles: multiset<EntryId>

    ghost function Value(): Cache
      reads this
    {
      Cache(table, entries, handles, nextId)
    }

    constructor ()
      ensures Value() == EMPTY
    {
      table, entries, nextId, handles := map[], map[], 1, multiset{};
    }

    /** Upgrades a table slot; success makes a new handle. */
    method Get(key: Key) returns (r: Option<EntryId>)
      modifies this
      ensures r == Upgrade(old(Value()), key)
      ensures Value() == if r.Some? then Spec.Clone(old(Value()), r.value) else old(Value())
    {
      if key in table && table[key] in entries {
        r := Some(table[key]);
        Clone(table[key]);
      } else {
        r := None;
      }
    }

    method GetRoot() returns (r: Option<EntryId>)
      modifies this
      ensures r == Upgrade(old(Value()), Key(NULL_ID, ROOT_NAME))
      ensures Value() == if r.Some? then Spec.Clone(old(Value()), r.value) else old(Value())
    {
      r := Get(Key(NULL_ID, ROOT_NAME));
    }

    method Lookup(parent: EntryId, name: string) returns (r: Option<EntryId>)
      modifies this
      ensures r == Upgrade(old(Value()), Key(parent, name))
      ensures Value() == if r.Some? then Spec.Clone(old(Value()), r.value) else old(Value())
    {
      r := Get(Key(parent, name));
    }

    method Clone(e: EntryId)
      requires e in entries
      modifies this
      ensures Value() == Spec.Clone(old(Value()), e)
    {
      entries := entries[e := entries[e].(strong := entries[e].strong + 1)];
      handles := handles + multiset{e};
    }

    /** The precondition holds the kernel's two assertions and, for a root, the
        test its only caller makes. */
    method Insert(parent: Option<EntryId>, node: NodeRef, name: string) returns (id: EntryId)
      requires CanInsert(Value(), parent, name)
      modifies this
      ensures id == old(nextId)
      ensures Value() == Spec.Insert(old(Value()), parent, node, name)
    {
      id := nextId;
      nextId := nextId + 1;
      if parent.Some? {
        var p := entries[parent.value];
        entries := entries[parent.value := p.(children := p.children[name := id], strong := p.strong + 1)];
      }
      entries := entries[id := Entry(name, node, parent, map[], 1)];
      table := table[KeyFor(parent, name) := id];
      handles := handles + multiset{id};
    }

    /** Drops a handle. When the count of an entry reaches zero the entry is freed
        and lets go of its parent in turn. */
    method Drop(e: EntryId)
      requires Coherent(Value()) && e in handles
      modifies this
      ensures Value() == Spec.Drop(old(Value()), e)
    {
      handles := handles - multiset{e};
      UnhandleKeeps(old(Value()), e);
      assert Value() == Unhandle(old(Value()), e);
      var x := e;
      while entries[x].strong == 1 && entries[x].parent.Some?
        invariant Shape(Value()) && Counted(Value(), Some(x))
        invariant Release(Value(), x) == Spec.Drop(old(Value()), e)
        decreases x
      {
        RemoveKeeps(Value(), x);
        var parent := entries[x].parent.value;
        ghost var before := Value();
        entries := entries - {x};
        assert Value() == Remove(before, x);
        x := parent;
      }
      assert CountOk(Value(), Some(x), x);
      ghost var before := Value();
      if entries[x].strong == 1 {
        entries := entries - {x};
        assert Value() == Remove(before, x);
      } else {
        entries := entries[x := entries[x].(strong := entries[x].strong - 1)];
        assert Value() == Decrement(before, x);
      }
    }

    /** Forgets an entry's weak references to dead children. */
    method PruneChildrenOf(e: EntryId)
      requires e in entries
      modifies this`entries
      ensures entries == old(entries)[e := PruneChildren(old(Value()), old(entries[e]))]
    {
      var x := entries[e];
      var live := map n | n in x.children && x.children[n] in entries :: x.children[n];
      entries := entries[e := x.(children := live)];
    }

    /** Forgets weak references to dead entries, in the table and then in the
        children of each entry the table still leads to. */
    method Prune()
      requires Coherent(Value())
      modifies this
      ensures Value() == Spec.Prune(old(Value()))
    {
      hide Coherent, PruneChildren;
      ghost var c := Value();
      table := map k | k in table && table[k] in entries :: table[k];
      PrunedTableIsLive(c);
      var todo := table.Values;
      while todo != {}
        invariant todo <= entries.Keys == c.entries.Keys
        invariant forall e :: e in entries ==>
                    entries[e] == if e in todo then c.entries[e] else PruneChildren(c, c.entries[e])
        invariant table == PruneTable(c) && handles == c.handles && nextId == c.next
        decreases todo
      {
        var e :| e in todo;
        PruneChildrenDependsOnLive(c, Value(), entries[e]);
        PruneChildrenOf(e);
        todo := todo - {e};
      }
    }
  }
}

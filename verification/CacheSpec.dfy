/**
  What the directory cache of kernel/src/fs/vfs.rs holds and keeps: a table of
  weak references from (parent id, name) to directory entries, which hold their
  parent strongly and their children weakly. An entry lives as long as it is
  strongly referenced, by a live child or by a handle outside the cache. A weak
  reference is an id: ids are never reused, so upgrading succeeds exactly if
  the id is live.
 */
module CacheSpec {
  import opened FsTypes

  const NULL_ID: EntryId := 0
  const ROOT_NAME := "/"

  datatype Key = Key(parent: EntryId, name: string)

  /** `strong` is the entry's reference count. */
  datatype Entry = Entry(
    name: string,
    node: NodeRef,
    parent: Option<EntryId>,
    children: map<string, EntryId>,
    strong: nat)

  /** `entries` holds the live entries; `handles` the references held outside:
      by the mount table, by clients and by calls in progress. */
  datatype Cache = Cache(
    table: map<Key, EntryId>,
    entries: map<EntryId, Entry>,
    handles: multiset<EntryId>,
    next: EntryId)

  const EMPTY := Cache(map[], map[], multiset{}, 1)

  function KeyFor(parent: Option<EntryId>, name: string): Key {
    Key(if parent.Some? then parent.value else NULL_ID, name)
  }

  function KeyOf(e: Entry): Key {
    KeyFor(e.parent, e.name)
  }

  /** Reading a table slot: the entry, if it is still live. */
  function Upgrade(c: Cache, k: Key): Option<EntryId> {
    if k in c.table && c.table[k] in c.entries then Some(c.table[k]) else None
  }

  // ---------------------------------------------------------------------
  // Coherence
  // ---------------------------------------------------------------------

  /** A live entry has a live parent with a smaller id (only a root has none),
      is what its key upgrades to, and is listed by its parent. */
  predicate EntryOk(c: Cache, e: EntryId)
    requires e in c.entries
  {
    && NULL_ID < e < c.next
    && KeyOf(c.entries[e]) in c.table
    && c.table[KeyOf(c.entries[e])] == e
    && match c.entries[e].parent
       case None => c.entries[e].name == ROOT_NAME
       case Some(p) =>
         && p < e
         && p in c.entries
         && c.entries[e].name in c.entries[p].children
         && c.entries[p].children[c.entries[e].name] == e
  }

  /** A weak reference found under a key was once handed out and, if it is still
      live, belongs under that key. */
  predicate WeakOk(c: Cache, k: Key, e: EntryId) {
    e < c.next && (e in c.entries ==> KeyOf(c.entries[e]) == k)
  }

  predicate SlotOk(c: Cache, k: Key)
    requires k in c.table
  {
    WeakOk(c, k, c.table[k])
  }

  predicate Lists(c: Cache, p: EntryId, name: string) {
    p in c.entries && name in c.entries[p].children
  }

  predicate ListedOk(c: Cache, p: EntryId, name: string)
    requires Lists(c, p, name)
  {
    WeakOk(c, Key(p, name), c.entries[p].children[name])
  }

  ghost predicate Shape(c: Cache) {
    && c.next > NULL_ID
    && (forall e {:trigger EntryOk(c, e)} :: e in c.entries ==> EntryOk(c, e))
    && (forall k {:trigger SlotOk(c, k)} :: k in c.table ==> SlotOk(c, k))
    && (forall p: EntryId, n: string {:trigger ListedOk(c, p, n)} :: Lists(c, p, n) ==> ListedOk(c, p, n))
  }

  function LiveChildren(c: Cache, p: EntryId): set<EntryId> {
    set e | e in c.entries && c.entries[e].parent == Some(p)
  }

  function Extra(extra: Option<EntryId>, e: EntryId): nat {
    if extra == Some(e) then 1 else 0
  }

  predicate CountOk(c: Cache, extra: Option<EntryId>, e: EntryId)
    requires e in c.entries
  {
    c.entries[e].strong == |LiveChildren(c, e)| + c.handles[e] + Extra(extra, e) > 0
  }

  /** Reference counts are conserved: live children plus handles, plus one for
      the reference `extra` that is just being let go of, if any. */
  ghost predicate Counted(c: Cache, extra: Option<EntryId>) {
    && (forall e {:trigger CountOk(c, extra, e)} :: e in c.entries ==> CountOk(c, extra, e))
    && (forall e :: e in c.handles ==> e in c.entries)
    && (extra.Some? ==> extra.value in c.entries)
  }

  ghost predicate Coherent(c: Cache) {
    Shape(c) && Counted(c, None)
  }

  /** No two live entries share a parent and a name. */
  lemma OneEntryPerName(c: Cache, e1: EntryId, e2: EntryId)
    requires Coherent(c) && e1 in c.entries && e2 in c.entries
    requires KeyOf(c.entries[e1]) == KeyOf(c.entries[e2])
    ensures e1 == e2
  {
    assert EntryOk(c, e1) && EntryOk(c, e2);
  }

  /** Table slots and live entries determine each other. */
  lemma SlotsAndEntries(c: Cache, k: Key, e: EntryId)
    requires Coherent(c)
    ensures k in c.table && c.table[k] in c.entries ==> KeyOf(c.entries[c.table[k]]) == k
    ensures e in c.entries ==> Upgrade(c, KeyOf(c.entries[e])) == Some(e)
  {
    if k in c.table {
      assert SlotOk(c, k);
    }
    if e in c.entries {
      assert EntryOk(c, e);
    }
  }

  /** A parent's `children` and the table agree on what is live under a name. */
  lemma ChildrenAgreeWithTable(c: Cache, p: EntryId, name: string)
    requires Coherent(c) && p in c.entries
    ensures Upgrade(c, Key(p, name)) ==
            if name in c.entries[p].children && c.entries[p].children[name] in c.entries
            then Some(c.entries[p].children[name])
            else None
  {
    var k := Key(p, name);
    assert EntryOk(c, p);
    if Lists(c, p, name) && c.entries[p].children[name] in c.entries {
      assert ListedOk(c, p, name);
      assert EntryOk(c, c.entries[p].children[name]);
    }
    if Upgrade(c, k).Some? {
      assert SlotOk(c, k);
      assert EntryOk(c, c.table[k]);
    }
  }

  /** The entries that a parent and a name upgrade to are their children. */
  lemma UpgradedIsChild(c: Cache, p: EntryId, name: string)
    requires Coherent(c) && p in c.entries && Upgrade(c, Key(p, name)).Some?
    ensures var e := Upgrade(c, Key(p, name)).value;
            e in c.entries && c.entries[e].parent == Some(p) && c.entries[e].name == name
  {
    assert SlotOk(c, Key(p, name));
    assert EntryOk(c, p);
  }

  /** `h` is `e` or lies below it. */
  ghost predicate AtOrBelow(c: Cache, h: EntryId, e: EntryId)
    decreases h
  {
    || h == e
    || (h in c.entries && c.entries[h].parent.Some? && c.entries[h].parent.value < h
        && AtOrBelow(c, c.entries[h].parent.value, e))
  }

  lemma {:induction false} BelowChild(c: Cache, h: EntryId, x: EntryId)
    requires Coherent(c) && x in c.entries && c.entries[x].parent.Some? && AtOrBelow(c, h, x)
    ensures AtOrBelow(c, h, c.entries[x].parent.value)
    decreases h
  {
    assert EntryOk(c, x);
    if h != x {
      BelowChild(c, c.entries[h].parent.value, x);
    }
  }

  lemma {:induction false} AncestorsLive(c: Cache, h: EntryId, e: EntryId)
    requires Coherent(c) && h in c.entries && AtOrBelow(c, h, e)
    ensures e in c.entries
    decreases h
  {
    assert EntryOk(c, h);
    if h != e {
      AncestorsLive(c, c.entries[h].parent.value, e);
    }
  }

  lemma {:induction false} LiveIsHeld(c: Cache, e: EntryId) returns (h: EntryId)
    requires Coherent(c) && e in c.entries
    ensures h in c.handles && AtOrBelow(c, h, e)
    decreases if e < c.next then c.next - e else 0
  {
    assert CountOk(c, None, e);
    if e in c.handles {
      h := e;
    } else {
      assert LiveChildren(c, e) != {};
      var x :| x in LiveChildren(c, e);
      assert EntryOk(c, x);
      h := LiveIsHeld(c, x);
      BelowChild(c, h, x);
    }
  }

  /** An entry lives exactly as long as a handle on it or on something below it. */
  lemma LivesExactlyWhileHeld(c: Cache, e: EntryId)
    requires Coherent(c)
    ensures e in c.entries <==> exists h :: h in c.handles && AtOrBelow(c, h, e)
  {
    if e in c.entries {
      var h := LiveIsHeld(c, e);
    }
    forall h | h in c.handles && AtOrBelow(c, h, e) ensures e in c.entries {
      AncestorsLive(c, h, e);
    }
  }

  // ---------------------------------------------------------------------
  // Changing counts and handles only
  // ---------------------------------------------------------------------

  /** The same entry up to its reference count. */
  predicate SameEntry(a: Entry, b: Entry) {
    a == b.(strong := a.strong)
  }

  ghost predicate SameEntries(c: Cache, c': Cache) {
    && c'.table == c.table
    && c'.next == c.next
    && c'.entries.Keys == c.entries.Keys
    && (forall x :: x in c.entries ==> SameEntry(c.entries[x], c'.entries[x]))
  }

  lemma SameEntriesKeepShape(c: Cache, c': Cache)
    requires Shape(c) && SameEntries(c, c')
    ensures Shape(c')
    ensures forall x :: LiveChildren(c', x) == LiveChildren(c, x)
  {
    forall e | e in c'.entries ensures EntryOk(c', e) {
      assert EntryOk(c, e);
    }
    forall k | k in c'.table ensures SlotOk(c', k) {
      assert SlotOk(c, k);
    }
    forall p: EntryId, n: string | Lists(c', p, n) ensures ListedOk(c', p, n) {
      assert Lists(c, p, n) && ListedOk(c, p, n);
    }
  }

  function Clone(c: Cache, e: EntryId): Cache
    requires e in c.entries
  {
    c.(entries := c.entries[e := c.entries[e].(strong := c.entries[e].strong + 1)],
       handles := c.handles + multiset{e})
  }

  lemma CloneKeeps(c: Cache, e: EntryId)
    requires Coherent(c) && e in c.entries
    ensures Coherent(Clone(c, e))
    ensures SameEntries(c, Clone(c, e))
  {
    var c' := Clone(c, e);
    SameEntriesKeepShape(c, c');
    forall x | x in c'.entries ensures CountOk(c', None, x) {
      assert CountOk(c, None, x);
    }
  }

  // ---------------------------------------------------------------------
  // Inserting
  // ---------------------------------------------------------------------

  /** Insertion asserts that the name is free; a root needs no parent. */
  predicate CanInsert(c: Cache, parent: Option<EntryId>, name: string) {
    && (parent.Some? ==> parent.value in c.entries)
    && (parent.None? ==> name == ROOT_NAME)
    && Upgrade(c, KeyFor(parent, name)).None?
  }

  /** A new entry, returned with one handle on it. */
  function Insert(c: Cache, parent: Option<EntryId>, node: NodeRef, name: string): Cache
    requires CanInsert(c, parent, name)
  {
    var id := c.next;
    var held := if parent.None? then c.entries else
                var p := c.entries[parent.value];
                c.entries[parent.value := p.(children := p.children[name := id], strong := p.strong + 1)];
    Cache(c.table[KeyFor(parent, name) := id],
          held[id := Entry(name, node, parent, map[], 1)],
          c.handles + multiset{id},
          id + 1)
  }

  lemma InsertKeepsShape(c: Cache, parent: Option<EntryId>, node: NodeRef, name: string)
    requires Shape(c) && CanInsert(c, parent, name)
    ensures Shape(Insert(c, parent, node, name))
    ensures c.next !in c.entries
  {
    var c', id := Insert(c, parent, node, name), c.next;
    forall e | e in c.entries ensures e < id {
      assert EntryOk(c, e);
    }
    forall e | e in c'.entries ensures EntryOk(c', e) {
      if e in c.entries {
        assert EntryOk(c, e);
      } else if parent.Some? {
        assert EntryOk(c, parent.value);
      }
    }
    forall k | k in c'.table ensures SlotOk(c', k) {
      if k != KeyFor(parent, name) {
        assert SlotOk(c, k);
      }
    }
    forall p: EntryId, n: string | Lists(c', p, n) ensures ListedOk(c', p, n) {
      if !(parent == Some(p) && n == name) {
        assert Lists(c, p, n) && ListedOk(c, p, n);
      }
    }
  }

  lemma LiveChildrenAfterInsert(c: Cache, parent: Option<EntryId>, node: NodeRef, name: string, e: EntryId)
    requires CanInsert(c, parent, name) && c.next !in c.entries
    ensures |LiveChildren(Insert(c, parent, node, name), e)| == |LiveChildren(c, e)| + Extra(parent, e)
  {
    var c', id := Insert(c, parent, node, name), c.next;
    assert c'.entries.Keys == c.entries.Keys + {id};
    assert forall x :: x in c.entries ==> c'.entries[x].parent == c.entries[x].parent;
    if parent == Some(e) {
      assert LiveChildren(c', e) == LiveChildren(c, e) + {id};
    } else {
      assert LiveChildren(c', e) == LiveChildren(c, e);
    }
  }

  lemma InsertKeepsCounts(c: Cache, parent: Option<EntryId>, node: NodeRef, name: string)
    requires Counted(c, None) && CanInsert(c, parent, name) && c.next !in c.entries
    requires LiveChildren(c, c.next) == {}
    ensures Counted(Insert(c, parent, node, name), None)
  {
    var c', id := Insert(c, parent, node, name), c.next;
    forall e | e in c'.entries ensures CountOk(c', None, e) {
      LiveChildrenAfterInsert(c, parent, node, name, e);
      if e != id {
        assert CountOk(c, None, e);
      }
    }
  }

  lemma InsertKeeps(c: Cache, parent: Option<EntryId>, node: NodeRef, name: string)
    requires Coherent(c) && CanInsert(c, parent, name)
    ensures Coherent(Insert(c, parent, node, name))
    ensures c.next !in c.entries
    ensures var c' := Insert(c, parent, node, name);
            c.next in c'.handles && c.next in c'.entries && c'.entries[c.next].node == node && c'.next == c.next + 1
  {
    InsertKeepsShape(c, parent, node, name);
    forall e | e in c.entries ensures c.entries[e].parent != Some(c.next) {
      assert EntryOk(c, e);
    }
    InsertKeepsCounts(c, parent, node, name);
  }

  // ---------------------------------------------------------------------
  // Dropping a handle: the cascade up the parent chain
  // ---------------------------------------------------------------------

  function Remove(c: Cache, e: EntryId): Cache {
    c.(entries := c.entries - {e})
  }

  lemma RemoveKeepsShape(c: Cache, e: EntryId)
    requires Shape(c) && e in c.entries && LiveChildren(c, e) == {}
    ensures Shape(Remove(c, e))
  {
    var c' := Remove(c, e);
    forall x | x in c'.entries ensures EntryOk(c', x) {
      assert EntryOk(c, x);
      assert x !in LiveChildren(c, e);
    }
    forall k | k in c'.table ensures SlotOk(c', k) {
      assert SlotOk(c, k);
    }
    forall p: EntryId, n: string | Lists(c', p, n) ensures ListedOk(c', p, n) {
      assert Lists(c, p, n) && ListedOk(c, p, n);
    }
  }

  /** Letting the last reference go frees an entry that nothing else refers to,
      and leaves its parent with one reference too many. */
  lemma RemoveKeeps(c: Cache, e: EntryId)
    requires Shape(c) && Counted(c, Some(e)) && c.entries[e].strong == 1
    ensures Shape(Remove(c, e)) && Counted(Remove(c, e), c.entries[e].parent)
    ensures c.handles[e] == 0
    ensures c.entries[e].parent.Some? ==> c.entries[e].parent.value < e
  {
    var c', up := Remove(c, e), c.entries[e].parent;
    assert CountOk(c, Some(e), e);
    assert EntryOk(c, e);
    assert |LiveChildren(c, e)| == 0;
    assert LiveChildren(c, e) == {};
    RemoveKeepsShape(c, e);
    forall x | x in c'.entries ensures CountOk(c', up, x) {
      assert CountOk(c, Some(e), x);
      if up == Some(x) {
        assert LiveChildren(c, x) == LiveChildren(c', x) + {e};
      } else {
        assert LiveChildren(c, x) == LiveChildren(c', x);
      }
    }
  }

  function Decrement(c: Cache, e: EntryId): Cache
    requires e in c.entries && c.entries[e].strong > 0
  {
    c.(entries := c.entries[e := c.entries[e].(strong := c.entries[e].strong - 1)])
  }

  lemma DecrementKeeps(c: Cache, e: EntryId)
    requires Shape(c) && Counted(c, Some(e)) && c.entries[e].strong > 1
    ensures Coherent(Decrement(c, e))
  {
    var c' := Decrement(c, e);
    SameEntriesKeepShape(c, c');
    forall x | x in c'.entries ensures CountOk(c', None, x) {
      assert CountOk(c, Some(e), x);
    }
  }

  ghost predicate Survives(c: Cache, c': Cache) {
    && c'.table == c.table
    && c'.next == c.next
    && (forall x :: x in c'.entries ==> x in c.entries && SameEntry(c.entries[x], c'.entries[x]))
  }

  /** Letting one counted reference to `e` go. */
  function Release(c: Cache, e: EntryId): (c': Cache)
    requires Shape(c) && Counted(c, Some(e))
    ensures Coherent(c')
    ensures Survives(c, c') && c'.handles == c.handles
    decreases e
  {
    var x := c.entries[e];
    assert CountOk(c, Some(e), e);
    if x.strong > 1 then
      DecrementKeeps(c, e);
      Decrement(c, e)
    else
      RemoveKeeps(c, e);
      if x.parent.None? then Remove(c, e) else Release(Remove(c, e), x.parent.value)
  }

  function Unhandle(c: Cache, e: EntryId): Cache {
    c.(handles := c.handles - multiset{e})
  }

  lemma UnhandleKeeps(c: Cache, e: EntryId)
    requires Coherent(c) && e in c.handles
    ensures Shape(Unhandle(c, e)) && Counted(Unhandle(c, e), Some(e))
  {
    var c' := Unhandle(c, e);
    SameEntriesKeepShape(c, c');
    forall x | x in c'.entries ensures CountOk(c', Some(e), x) {
      assert CountOk(c, None, x);
    }
  }

  /** Dropping a handle. What survives is what is still referenced. */
  function Drop(c: Cache, e: EntryId): (c': Cache)
    requires Coherent(c) && e in c.handles
    ensures Coherent(c')
    ensures Survives(c, c') && c'.handles == c.handles - multiset{e}
  {
    UnhandleKeeps(c, e);
    Release(Unhandle(c, e), e)
  }

  // ---------------------------------------------------------------------
  // Pruning
  // ---------------------------------------------------------------------

  function PruneTable(c: Cache): map<Key, EntryId> {
    map k | k in c.table && c.table[k] in c.entries :: c.table[k]
  }

  function PruneChildren(c: Cache, e: Entry): Entry {
    e.(children := map n | n in e.children && e.children[n] in c.entries :: e.children[n])
  }

  /** The pruned table leads to every live entry and to nothing else. */
  lemma PrunedTableIsLive(c: Cache)
    requires Coherent(c)
    ensures PruneTable(c).Values == c.entries.Keys
  {
    forall e | e in c.entries ensures e in PruneTable(c).Values {
      SlotsAndEntries(c, KeyOf(c.entries[e]), e);
      assert PruneTable(c)[KeyOf(c.entries[e])] == e;
    }
  }

  lemma PruneChildrenDependsOnLive(c: Cache, c': Cache, x: Entry)
    requires c.entries.Keys == c'.entries.Keys
    ensures PruneChildren(c, x) == PruneChildren(c', x)
  {
    assert forall e :: e in c.entries <==> e in c'.entries;
  }

  function Prune(c: Cache): Cache {
    c.(table := PruneTable(c),
       entries := map e | e in c.entries :: PruneChildren(c, c.entries[e]))
  }

  lemma PruneKeeps(c: Cache)
    requires Coherent(c)
    ensures Coherent(Prune(c))
  {
    var c' := Prune(c);
    forall e | e in c'.entries ensures EntryOk(c', e) {
      assert EntryOk(c, e);
    }
    forall k | k in c'.table ensures SlotOk(c', k) {
      assert SlotOk(c, k);
    }
    forall p: EntryId, n: string | Lists(c', p, n) ensures ListedOk(c', p, n) {
      assert Lists(c, p, n) && ListedOk(c, p, n);
    }
    forall x | x in c'.entries ensures CountOk(c', None, x) {
      assert CountOk(c, None, x);
      assert LiveChildren(c', x) == LiveChildren(c, x);
    }
  }

  /** Pruning forgets dead weak references: no lookup changes, in the table or
      in any entry's children, and afterwards every weak reference is live. */
  lemma PruneChangesNoLookup(c: Cache, k: Key)
    requires Coherent(c)
    ensures Upgrade(Prune(c), k) == Upgrade(c, k)
    ensures k in Prune(c).table ==> Prune(c).table[k] in Prune(c).entries
    ensures Lists(Prune(c), k.parent, k.name) <==>
              Lists(c, k.parent, k.name) && c.entries[k.parent].children[k.name] in c.entries
    ensures Lists(Prune(c), k.parent, k.name) ==>
              Prune(c).entries[k.parent].children[k.name] == c.entries[k.parent].children[k.name]
  {
  }
}

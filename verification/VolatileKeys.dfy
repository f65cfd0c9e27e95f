/** The volatile keys of src/psa_key_storage.c: a singly linked list under the key-store
    lock, and the counter that hands out key ids. */
module VolatileKeys {
  import opened KeyRecord
  import opened Bytes
  import opened Psa

  const VENDOR_MIN: nat := 0x4000_0000
  const VENDOR_MAX: nat := 0x7FFF_FFFF

  /** One key, as callers see it. */
  datatype Entry = Entry(id: nat, attributes: Attributes, data: seq<byte>)

  /** The key of an id, in a list from the newest key on. */
  function Lookup(entries: seq<Entry>, id: nat): Option<Entry> {
    if entries == [] then None
    else if entries[0].id == id then Some(entries[0])
    else Lookup(entries[1..], id)
  }

  ghost predicate UniqueIds(entries: seq<Entry>) {
    forall i, j :: 0 <= i < j < |entries| ==> entries[i].id != entries[j].id
  }

  lemma {:induction false} LookupFinds(entries: seq<Entry>, k: nat)
    requires UniqueIds(entries) && k < |entries|
    ensures Lookup(entries, entries[k].id) == Some(entries[k])
  {
    if k > 0 {
      assert entries[1..][k - 1] == entries[k];
      LookupFinds(entries[1..], k - 1);
    }
  }

  lemma {:induction false} LookupMisses(entries: seq<Entry>, id: nat)
    requires forall i :: 0 <= i < |entries| ==> entries[i].id != id
    ensures Lookup(entries, id) == None
  {
    if entries != [] {
      LookupMisses(entries[1..], id);
    }
  }

  /** Taking the `k`-th key out removes its id and no other. */
  lemma {:induction false} LookupAfterRemoval(entries: seq<Entry>, k: nat, id: nat)
    requires UniqueIds(entries) && k < |entries|
    ensures Lookup(entries[..k] + entries[k + 1..], id) == if id == entries[k].id then None else Lookup(entries, id)
  {
    var left := entries[..k] + entries[k + 1..];
    if k == 0 {
      assert left == entries[1..];
      if id == entries[0].id {
        LookupMisses(left, id);
      }
    } else {
      assert left[0] == entries[0] && left[1..] == entries[1..][..k - 1] + entries[1..][k..];
      LookupAfterRemoval(entries[1..], k - 1, id);
    }
  }

  /** wolfpsa_volatile_key_node */
  class Node {
    const entry: Entry
    var next: Node?

    constructor (entry: Entry, next: Node?)
      ensures this.entry == entry && this.next == next
    {
      this.entry, this.next := entry, next;
    }
  }

  class VolatileKeys {
    var head: Node?
    var nextKeyId: nat
    /** The nodes in list order, and all ids the counter has handed out. */
    ghost var nodes: seq<Node>
    ghost var issued: set<nat>

    ghost predicate Valid()
      reads this, nodes
    {
      && Linked(head, nodes)
      && UniqueIds(Entries(nodes))
      && VENDOR_MIN <= nextKeyId <= VENDOR_MAX + 1
      && forall id :: id in issued <==> VENDOR_MIN <= id < nextKeyId
    }

    constructor ()
      ensures Valid() && Entries(nodes) == [] && issued == {}
    {
      head, nextKeyId, nodes, issued := null, VENDOR_MIN, [], {};
    }

    /** The key an id names. */
    ghost function Key(id: nat): Option<Entry>
      reads this, nodes
    {
      Lookup(Entries(nodes), id)
    }

    /** wolfpsa_volatile_find */
    method Find(id: nat) returns (node: Node?)
      requires Valid()
      ensures match Key(id)
              case None => node == null
              case Some(e) => node != null && node.entry == e
    {
      ghost var i := 0;
      var cur := head;
      while cur != null
        invariant 0 <= i <= |nodes| && cur == At(nodes, i)
        invariant Lookup(Entries(nodes), id) == Lookup(Entries(nodes)[i..], id)
        decreases |nodes| - i
      {
        assert Entries(nodes)[i..][1..] == Entries(nodes)[i + 1..];
        if cur.entry.id == id {
          return cur;
        }
        i := i + 1;
        cur := cur.next;
      }
      return null;
    }

    /** wolfpsa_volatile_store */
    method Store(id: nat, attributes: Attributes, data: seq<byte>) returns (status: Status)
      requires Valid()
      modifies `head, `nodes
      ensures Valid() && fresh(Set(nodes) - Set(old(nodes)))
      ensures status == if data == [] then InvalidArgument
                        else if old(Key(id)).Some? then AlreadyExists
                        else Success
      ensures forall other ::
                Key(other) == if status == Success && other == id then Some(Entry(id, attributes, data))
                              else old(Key(other))
    {
      if |data| == 0 {
        return InvalidArgument;
      }
      var found := Find(id);
      if found != null {
        return AlreadyExists;
      }
      ghost var was := Entries(nodes);
      NotAmong(was, id);
      var node := new Node(Entry(id, attributes, data), head);
      Push(node);
      assert Entries(nodes)[1..] == was;
      return Success;
    }

    method Push(node: Node)
      requires Valid() && node !in nodes && node.next == head && Lookup(Entries(nodes), node.entry.id) == None
      requires forall i :: 0 <= i < |nodes| ==> Entries(nodes)[i].id != node.entry.id
      modifies `head, `nodes
      ensures Valid() && nodes == [node] + old(nodes) && Entries(nodes) == [node.entry] + old(Entries(nodes))
    {
      head := node;
      nodes := [node] + nodes;
    }

    /** wolfpsa_volatile_remove: unlinks the node from its predecessor or from the head. */
    method Remove(id: nat) returns (status: Status)
      requires Valid()
      modifies `head, `nodes, nodes
      ensures Valid() && Set(nodes) <= Set(old(nodes))
      ensures status == if old(Key(id)).Some? then Success else InvalidHandle
      ensures forall other :: Key(other) == if other == id then None else old(Key(other))
    {
      ghost var i := 0;
      ghost var was := Entries(nodes);
      var cur, prev: Node? := head, null;
      while cur != null
        invariant 0 <= i <= |nodes| && cur == At(nodes, i)
        invariant prev == if i == 0 then null else nodes[i - 1]
        invariant Lookup(was, id) == Lookup(was[i..], id)
        decreases |nodes| - i
      {
        assert was[i..][1..] == was[i + 1..];
        if cur.entry.id == id {
          Unlink(prev, cur, i);
          forall other ensures Key(other) == if other == id then None else Lookup(was, other) {
            LookupAfterRemoval(was, i, other);
          }
          return Success;
        }
        i := i + 1;
        prev := cur;
        cur := cur.next;
      }
      return InvalidHandle;
    }

    method Unlink(prev: Node?, cur: Node, ghost i: nat)
      requires Valid() && i < |nodes| && cur == nodes[i]
      requires prev == if i == 0 then null else nodes[i - 1]
      modifies `head, `nodes, nodes
      ensures Valid() && Set(nodes) <= Set(old(nodes))
      ensures Entries(nodes) == old(Entries(nodes)[..i] + Entries(nodes)[i + 1..])
    {
      hide UniqueIds;
      ghost var was := nodes;
      UniqueWithout(Entries(was), i);
      EntriesWithout(was, i);
      assert cur.next == At(was, i + 1);
      if prev != null {
        prev.next := cur.next;
      } else {
        head := cur.next;
      }
      nodes := was[..i] + was[i + 1..];
      assert forall j :: 0 <= j < |was| && j != i - 1 ==> was[j].next == At(was, j + 1);
      LinkedWithout(head, was, i);
    }

    /** wolfpsa_volatile_get */
    method Get(id: nat) returns (loaded: Loaded)
      requires Valid()
      ensures match Key(id)
              case None => loaded == Loaded(InvalidHandle, NOTHING, [])
              case Some(e) =>
                loaded == if e.data == [] then Loaded(DataInvalid, NOTHING, []) else Loaded(Success, e.attributes, e.data)
    {
      var node := Find(id);
      if node == null {
        return Loaded(InvalidHandle, NOTHING, []);
      }
      if |node.entry.data| == 0 {
        return Loaded(DataInvalid, NOTHING, []);
      }
      return Loaded(Success, node.entry.attributes, node.entry.data);
    }

    /** The id of psa_import_key for a key that brings none: vendor ids, each once. */
    method IssueId() returns (status: Status, id: nat)
      requires Valid()
      modifies `nextKeyId, `issued
      ensures Valid()
      ensures status == if old(nextKeyId) > VENDOR_MAX then InsufficientStorage else Success
      ensures status == Success ==>
                0x4000_0000 <= id <= 0x7FFF_FFFF && id !in old(issued) && issued == old(issued) + {id}
      ensures status != Success ==>
                issued == old(issued) && forall k: nat :: 0x4000_0000 <= k <= 0x7FFF_FFFF ==> k in issued
    {
      if nextKeyId < VENDOR_MIN || nextKeyId > VENDOR_MAX {
        return InsufficientStorage, 0;
      }
      id := nextKeyId;
      nextKeyId := nextKeyId + 1;
      issued := issued + {id};
      return Success, id;
    }
  }

  function Set(nodes: seq<Node>): set<Node> {
    set n | n in nodes
  }

  /** The `i`-th node, and null behind the last. */
  function At(nodes: seq<Node>, i: nat): Node?
    requires i <= |nodes|
  {
    if i < |nodes| then nodes[i] else null
  }

  /** `nodes` are the distinct nodes reached from `head`, in order. */
  ghost predicate Linked(head: Node?, nodes: seq<Node>)
    reads nodes
  {
    && head == At(nodes, 0)
    && (forall i :: 0 <= i < |nodes| ==> nodes[i].next == At(nodes, i + 1))
    && (forall i, j :: 0 <= i < j < |nodes| ==> nodes[i] != nodes[j])
  }

  /** The list without its `i`-th node, once the pointer to that node goes past it. */
  lemma LinkedWithout(head: Node?, was: seq<Node>, i: nat)
    requires i < |was|
    requires forall j :: 0 <= j < |was| && j != i - 1 ==> was[j].next == At(was, j + 1)
    requires if i == 0 then head == At(was, 1) else head == was[0] && was[i - 1].next == At(was, i + 1)
    requires forall j, k :: 0 <= j < k < |was| ==> was[j] != was[k]
    ensures Linked(head, was[..i] + was[i + 1..])
  {
    var nodes := was[..i] + was[i + 1..];
    forall j | 0 <= j < |nodes| ensures nodes[j].next == At(nodes, j + 1) {
      if j < i {
        assert nodes[j] == was[j];
      } else {
        assert nodes[j] == was[j + 1];
      }
    }
  }

  lemma EntriesWithout(was: seq<Node>, i: nat)
    requires i < |was|
    ensures Entries(was[..i] + was[i + 1..]) == Entries(was)[..i] + Entries(was)[i + 1..]
  {
  }

  lemma UniqueWithout(entries: seq<Entry>, i: nat)
    requires UniqueIds(entries) && i < |entries|
    ensures UniqueIds(entries[..i] + entries[i + 1..])
  {
  }

  function Entries(nodes: seq<Node>): (entries: seq<Entry>)
    ensures |entries| == |nodes| && forall i :: 0 <= i < |nodes| ==> entries[i] == nodes[i].entry
  {
    seq(|nodes|, i requires 0 <= i < |nodes| => nodes[i].entry)
  }

  lemma {:induction false} NotAmong(entries: seq<Entry>, id: nat)
    requires Lookup(entries, id) == None
    ensures forall i :: 0 <= i < |entries| ==> entries[i].id != id
  {
    if entries != [] {
      NotAmong(entries[1..], id);
      forall i | 0 <= i < |entries| ensures entries[i].id != id {
        if i > 0 {
          assert entries[i] == entries[1..][i - 1];
        }
      }
    }
  }
}

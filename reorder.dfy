/**
 * The position updates the client sends after a drag: one update per todo of the
 * reordered list, giving each the index it now holds. The updates are sent without
 * waiting for one another, so the remote table sees them in no fixed order; the
 * lemmas here show the final positions do not depend on that order.
 */
module Reorder {
  import opened Todos

  /** `update({ position }).eq('id', id)` on the `todos` table. */
  datatype PositionUpdate = PositionUpdate(id: string, position: int)

  /** `updates` holds, at index i, the update giving `items[i]` position i. */
  predicate Issued(items: seq<Todo>, updates: seq<PositionUpdate>) {
    |updates| == |items|
    && forall i :: 0 <= i < |items| ==> updates[i] == PositionUpdate(items[i].id, i)
  }

  /** The `forEach` over the reordered list: one position update per todo. */
  method IssuePositionUpdates(items: seq<Todo>) returns (updates: seq<PositionUpdate>)
    ensures Issued(items, updates)
  {
    updates := [];
    var index := 0;
    while index < |items|
      invariant 0 <= index <= |items|
      invariant Issued(items[..index], updates)
    {
      updates := updates + [PositionUpdate(items[index].id, index)];
      index := index + 1;
    }
    assert items[..index] == items;
  }

  /** The positions the updates write. */
  function Positions(updates: seq<PositionUpdate>): set<int> {
    set u | u in updates :: u.position
  }

  /** The positions issued are exactly 0 to N-1, each once. */
  lemma IssuedPositionsDense(items: seq<Todo>, updates: seq<PositionUpdate>)
    requires Issued(items, updates)
    ensures forall p :: p in Positions(updates) <==> 0 <= p < |items|
    ensures forall i, j :: 0 <= i < |updates| && 0 <= j < |updates| && updates[i].position == updates[j].position ==> i == j
  {
    forall p | 0 <= p < |items|
      ensures p in Positions(updates)
    {
      assert updates[p] in updates;
    }
    forall u | u in updates
      ensures 0 <= u.position < |items|
    {
      var j :| 0 <= j < |updates| && updates[j] == u;
    }
  }

  /** With unique ids, every todo gets exactly one update, the one at its own index. */
  lemma IssuedOnePerTodo(items: seq<Todo>, updates: seq<PositionUpdate>)
    requires Issued(items, updates) && UniqueIds(items)
    ensures forall i, j :: 0 <= i < |items| && 0 <= j < |updates| ==>
      (updates[j].id == items[i].id <==> j == i)
  {
  }

  /** The position column of the remote table, by row id. */
  type Store = map<string, int>

  /** One update as the table applies it: a row with that id takes the new
      position; an id with no row changes nothing. */
  function ApplyUpdate(store: Store, u: PositionUpdate): (r: Store)
    ensures r.Keys == store.Keys
  {
    if u.id in store then store[u.id := u.position] else store
  }

  /** The table after the updates arrive in the order given. */
  function ApplyUpdates(store: Store, updates: seq<PositionUpdate>): (r: Store)
    ensures r.Keys == store.Keys
    decreases |updates|
  {
    if updates == [] then store else ApplyUpdates(ApplyUpdate(store, updates[0]), updates[1..])
  }

  /** No two different updates are for the same row. */
  predicate OnePerRow(updates: seq<PositionUpdate>) {
    forall u, v :: u in updates && v in updates && u.id == v.id ==> u == v
  }

  /** When no two updates target the same row, a row ends with the position of
      its update, or keeps its position when it has none. */
  lemma {:induction false} ApplyUpdatesAt(store: Store, updates: seq<PositionUpdate>, k: string)
    requires OnePerRow(updates) && k in store
    ensures forall u :: u in updates && u.id == k ==> ApplyUpdates(store, updates)[k] == u.position
    ensures (forall u :: u in updates ==> u.id != k) ==> ApplyUpdates(store, updates)[k] == store[k]
  {
    if updates != [] {
      var head, tail := updates[0], updates[1..];
      var next := ApplyUpdate(store, head);
      assert forall u :: u in tail ==> u in updates;
      ApplyUpdatesAt(next, tail, k);
      if head.id == k {
        forall u | u in tail && u.id == k
          ensures u == head
        {
        }
      }
    }
  }

  /** The order in which the updates reach the table does not matter. */
  lemma ApplyUpdatesOrderFree(store: Store, updates: seq<PositionUpdate>, order: seq<PositionUpdate>)
    requires OnePerRow(updates) && multiset(order) == multiset(updates)
    ensures ApplyUpdates(store, order) == ApplyUpdates(store, updates)
  {
    assert forall u :: u in order <==> u in updates by {
      forall u ensures u in order <==> u in updates {
        assert u in order <==> u in multiset(order);
        assert u in updates <==> u in multiset(updates);
      }
    }
    forall k | k in store
      ensures ApplyUpdates(store, order)[k] == ApplyUpdates(store, updates)[k]
    {
      ApplyUpdatesAt(store, updates, k);
      ApplyUpdatesAt(store, order, k);
    }
  }

  /** After a reorder, whatever order its updates arrive in, every row of the
      list holds its index as position and every other row keeps its own. */
  lemma ReorderSettles(store: Store, items: seq<Todo>, updates: seq<PositionUpdate>, order: seq<PositionUpdate>)
    requires Issued(items, updates) && UniqueIds(items)
    requires multiset(order) == multiset(updates)
    ensures forall i :: 0 <= i < |items| && items[i].id in store ==> ApplyUpdates(store, order)[items[i].id] == i
    ensures forall k :: k in store && k !in Ids(items) ==> ApplyUpdates(store, order)[k] == store[k]
  {
    assert OnePerRow(updates) by {
      forall u, v | u in updates && v in updates && u.id == v.id
        ensures u == v
      {
        var i :| 0 <= i < |updates| && updates[i] == u;
        var j :| 0 <= j < |updates| && updates[j] == v;
      }
    }
    ApplyUpdatesOrderFree(store, updates, order);
    forall i | 0 <= i < |items| && items[i].id in store
      ensures ApplyUpdates(store, updates)[items[i].id] == i
    {
      ApplyUpdatesAt(store, updates, items[i].id);
      assert updates[i] in updates;
    }
    forall k | k in store && k !in Ids(items)
      ensures ApplyUpdates(store, updates)[k] == store[k]
    {
      forall u | u in updates
        ensures u.id != k
      {
        var j :| 0 <= j < |updates| && updates[j] == u;
        assert items[j] in items;
      }
      ApplyUpdatesAt(store, updates, k);
    }
  }
}

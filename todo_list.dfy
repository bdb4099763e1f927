/**
 * The pure list transformations the todo client applies to its in-memory list:
 * lookup by id, the field updates done with `map`, removal with `filter`, the
 * single-element move of a drag, and the normalisation of loaded rows.
 */
module TodoList {
  import opened Wrappers
  import opened Todos

  // ---------------------------------------------------------------- lookup

  /** `Array.prototype.findIndex` by id: the first index holding `id`, or -1. */
  function FindIndex(s: seq<Todo>, id: string): (k: int)
    ensures -1 <= k < |s|
    ensures k == -1 <==> id !in Ids(s)
    ensures 0 <= k ==> s[k].id == id && forall j :: 0 <= j < k ==> s[j].id != id
  {
    if s == [] then -1
    else
      IdsCons(s);
      if s[0].id == id then 0
      else
        var k := FindIndex(s[1..], id);
        if k == -1 then -1 else k + 1
  }

  /** `Array.prototype.find` by id: the first todo holding `id`, if any. */
  function Find(s: seq<Todo>, id: string): (r: Option<Todo>)
    ensures r.None? <==> id !in Ids(s)
    ensures r.Some? ==> r.value.id == id
    ensures r.Some? ==> exists k :: 0 <= k < |s| && s[k] == r.value && forall j :: 0 <= j < k ==> s[j].id != id
  {
    var k := FindIndex(s, id);
    if k == -1 then None else Some(s[k])
  }

  /** With unique ids, the lookup finds the one todo that holds the id. */
  lemma FindUnique(s: seq<Todo>, k: int)
    requires UniqueIds(s) && 0 <= k < |s|
    ensures FindIndex(s, s[k].id) == k && Find(s, s[k].id) == Some(s[k])
  {
  }

  // ------------------------------------------------------------- field updates

  /** `s.map(t => t.id === id ? f(t) : t)`: every todo holding `id` is replaced
      by `f` of it, every other todo is kept, in the same order. */
  function UpdateWhere(s: seq<Todo>, id: string, f: Todo -> Todo): (r: seq<Todo>)
    ensures |r| == |s|
    ensures forall i :: 0 <= i < |s| ==> r[i] == if s[i].id == id then f(s[i]) else s[i]
  {
    if s == [] then []
    else [if s[0].id == id then f(s[0]) else s[0]] + UpdateWhere(s[1..], id, f)
  }

  /** An id that no todo holds leaves the list as it was. */
  lemma UpdateWhereAbsent(s: seq<Todo>, id: string, f: Todo -> Todo)
    requires id !in Ids(s)
    ensures UpdateWhere(s, id, f) == s
  {
    forall i | 0 <= i < |s|
      ensures s[i].id != id
    {
      assert s[i] in s;
    }
  }

  /** With unique ids, exactly the one todo holding `id` changes. */
  lemma UpdateWhereAt(s: seq<Todo>, id: string, f: Todo -> Todo, k: int)
    requires UniqueIds(s) && 0 <= k < |s| && s[k].id == id
    ensures UpdateWhere(s, id, f) == s[k := f(s[k])]
  {
  }

  /** The todo with its completion flag negated and every other field kept. */
  function Flip(t: Todo): Todo {
    t.(completed := !t.completed)
  }

  /** The list after a successful completion toggle of `id`. */
  function CompletionToggled(s: seq<Todo>, id: string): (r: seq<Todo>)
    ensures |r| == |s|
    ensures forall i :: 0 <= i < |s| ==> r[i].id == s[i].id
    ensures forall i :: 0 <= i < |s| && s[i].id != id ==> r[i] == s[i]
    ensures forall i :: 0 <= i < |s| && s[i].id == id ==>
      r[i].completed == !s[i].completed && r[i].(completed := s[i].completed) == s[i]
  {
    UpdateWhere(s, id, Flip)
  }

  /** Toggling completion twice restores the list. */
  lemma CompletionToggledTwice(s: seq<Todo>, id: string)
    ensures CompletionToggled(CompletionToggled(s, id), id) == s
  {
  }

  /** The next delegate: "T" becomes "K" and every other tag becomes "T". */
  function NextDelegate(d: Delegate): (r: Delegate)
    ensures r.Declared()
    ensures r == K <==> d == T
  {
    if d == T then K else T
  }

  /** On the two declared tags the delegate toggle is its own inverse. */
  lemma NextDelegateTwice(d: Delegate)
    requires d.Declared()
    ensures NextDelegate(NextDelegate(d)) == d
  {
  }

  /** `s.map(t => t.id === id ? { ...t, delegate: d } : t)`. */
  function SetDelegate(s: seq<Todo>, id: string, d: Delegate): (r: seq<Todo>)
    ensures |r| == |s|
    ensures forall i :: 0 <= i < |s| ==> r[i].id == s[i].id
    ensures forall i :: 0 <= i < |s| && s[i].id != id ==> r[i] == s[i]
    ensures forall i :: 0 <= i < |s| && s[i].id == id ==> r[i] == s[i].(delegate := d)
  {
    UpdateWhere(s, id, (t: Todo) => t.(delegate := d))
  }

  /** The list after a successful delegate toggle of `id`: the tag that follows
      the first match's tag is written to every todo holding `id`. */
  function DelegateToggled(s: seq<Todo>, id: string): (r: seq<Todo>)
    ensures |r| == |s|
    ensures forall i :: 0 <= i < |s| ==> r[i].id == s[i].id
    ensures forall i :: 0 <= i < |s| && s[i].id != id ==> r[i] == s[i]
    ensures forall i :: 0 <= i < |s| && s[i].id == id ==> r[i].delegate.Declared()
  {
    match Find(s, id)
    case None => s
    case Some(t) => SetDelegate(s, id, NextDelegate(t.delegate))
  }

  /** With unique ids the delegate toggle changes only the delegate of the one
      todo holding `id`. */
  lemma DelegateToggledAt(s: seq<Todo>, k: int)
    requires UniqueIds(s) && 0 <= k < |s|
    ensures DelegateToggled(s, s[k].id) == s[k := s[k].(delegate := NextDelegate(s[k].delegate))]
  {
    FindUnique(s, k);
    UpdateWhereAt(s, s[k].id, (t: Todo) => t.(delegate := NextDelegate(s[k].delegate)), k);
  }

  /** Toggling the delegate twice restores a list whose todo carries one of the
      two declared tags. */
  lemma DelegateToggledTwice(s: seq<Todo>, id: string)
    requires UniqueIds(s)
    requires forall i :: 0 <= i < |s| && s[i].id == id ==> s[i].delegate.Declared()
    ensures DelegateToggled(DelegateToggled(s, id), id) == s
  {
    var k := FindIndex(s, id);
    if k == -1 {
      UpdateWhereAbsent(s, id, (t: Todo) => t);
    } else {
      var s1 := DelegateToggled(s, id);
      DelegateToggledAt(s, k);
      assert UniqueIds(s1);
      DelegateToggledAt(s1, k);
      NextDelegateTwice(s[k].delegate);
      assert s1[k := s1[k].(delegate := NextDelegate(s1[k].delegate))] == s;
    }
  }

  // ----------------------------------------------------------------- removal

  /** `s.filter(t => t.id !== id)`. */
  function RemoveId(s: seq<Todo>, id: string): (r: seq<Todo>)
    ensures |r| <= |s|
    ensures forall t :: t in r <==> t in s && t.id != id
  {
    if s == [] then []
    else if s[0].id == id then RemoveId(s[1..], id)
    else [s[0]] + RemoveId(s[1..], id)
  }

  /** Filtering distributes over concatenation, so the survivors keep their
      relative order. */
  lemma {:induction false} RemoveIdAppend(a: seq<Todo>, b: seq<Todo>, id: string)
    ensures RemoveId(a + b, id) == RemoveId(a, id) + RemoveId(b, id)
  {
    if a == [] {
      assert a + b == b;
    } else {
      assert (a + b)[0] == a[0];
      assert (a + b)[1..] == a[1..] + b;
      RemoveIdAppend(a[1..], b, id);
    }
  }

  /** The list without its element at index `i`. */
  function RemoveAt(s: seq<Todo>, i: int): (r: seq<Todo>)
    requires 0 <= i < |s|
    ensures |r| == |s| - 1
    ensures forall j :: 0 <= j < i ==> r[j] == s[j]
    ensures forall j :: i <= j < |r| ==> r[j] == s[j + 1]
  {
    s[..i] + s[i + 1..]
  }

  /** A list in which no todo holds `id` passes the filter unchanged. */
  lemma {:induction false} RemoveIdNone(s: seq<Todo>, id: string)
    requires forall i :: 0 <= i < |s| ==> s[i].id != id
    ensures RemoveId(s, id) == s
  {
    if s != [] {
      RemoveIdNone(s[1..], id);
    }
  }

  /** Deleting an id that no todo holds leaves the list as it was. */
  lemma RemoveIdAbsent(s: seq<Todo>, id: string)
    requires id !in Ids(s)
    ensures RemoveId(s, id) == s
  {
    forall i | 0 <= i < |s|
      ensures s[i].id != id
    {
      assert s[i] in s;
    }
    RemoveIdNone(s, id);
  }

  /** Filtering out the one todo holding `id` between two lists that hold no
      `id` joins the two. */
  lemma RemoveIdSplit(front: seq<Todo>, x: Todo, back: seq<Todo>)
    requires forall i :: 0 <= i < |front| ==> front[i].id != x.id
    requires forall i :: 0 <= i < |back| ==> back[i].id != x.id
    ensures RemoveId(front + [x] + back, x.id) == front + back
  {
    assert front + [x] + back == front + ([x] + back);
    RemoveIdAppend(front, [x] + back, x.id);
    RemoveIdAppend([x], back, x.id);
    assert RemoveId([x], x.id) == [] by {
      assert [x][1..] == [];
    }
    RemoveIdNone(front, x.id);
    RemoveIdNone(back, x.id);
  }

  /** With unique ids, deleting removes exactly the one todo holding the id
      and keeps the rest in order. */
  lemma RemoveIdUnique(s: seq<Todo>, k: int)
    requires UniqueIds(s) && 0 <= k < |s|
    ensures RemoveId(s, s[k].id) == RemoveAt(s, k)
  {
    var front, back := s[..k], s[k + 1..];
    assert s == front + [s[k]] + back;
    forall i | 0 <= i < |front|
      ensures front[i].id != s[k].id
    {
      assert front[i] == s[i];
    }
    forall i | 0 <= i < |back|
      ensures back[i].id != s[k].id
    {
      assert back[i] == s[k + 1 + i];
    }
    RemoveIdSplit(front, s[k], back);
  }

  /** Removing an element keeps the remaining ids unique and drops exactly that id. */
  lemma RemoveAtUnique(s: seq<Todo>, i: int)
    requires UniqueIds(s) && 0 <= i < |s|
    ensures UniqueIds(RemoveAt(s, i))
    ensures forall j :: 0 <= j < |s| - 1 ==> RemoveAt(s, i)[j].id != s[i].id
  {
    var r := RemoveAt(s, i);
    forall a, b | 0 <= a < |r| && 0 <= b < |r| && r[a].id == r[b].id
      ensures a == b
    {
      var a' := if a < i then a else a + 1;
      var b' := if b < i then b else b + 1;
      assert r[a] == s[a'] && r[b] == s[b'];
    }
    forall j | 0 <= j < |r|
      ensures r[j].id != s[i].id
    {
      var j' := if j < i then j else j + 1;
      assert r[j] == s[j'];
    }
  }

  /** With unique ids the filtered list keeps unique ids. */
  lemma RemoveIdKeepsUnique(s: seq<Todo>, id: string)
    requires UniqueIds(s)
    ensures UniqueIds(RemoveId(s, id))
  {
    var k := FindIndex(s, id);
    if k == -1 {
      RemoveIdAbsent(s, id);
    } else {
      RemoveIdUnique(s, k);
      RemoveAtUnique(s, k);
    }
  }

  // -------------------------------------------------------------------- move

  /** Taking out the element at `i` takes exactly one copy of it out of the multiset. */
  lemma MultisetRemoveAt(s: seq<Todo>, i: int)
    requires 0 <= i < |s|
    ensures multiset(RemoveAt(s, i)) + multiset{s[i]} == multiset(s)
  {
    assert s == s[..i] + [s[i]] + s[i + 1..];
  }

  /** The list with `x` inserted so that it sits at index `i`. */
  function InsertAt(s: seq<Todo>, i: int, x: Todo): (r: seq<Todo>)
    requires 0 <= i <= |s|
    ensures |r| == |s| + 1 && r[i] == x
    ensures RemoveAt(r, i) == s
  {
    assert (s[..i] + [x] + s[i..])[..i] == s[..i];
    assert (s[..i] + [x] + s[i..])[i + 1..] == s[i..];
    s[..i] + [x] + s[i..]
  }

  /** `arrayMove(s, from, to)` of dnd-kit: the element at `from` is taken out and
      put back so that it sits at `to`; the list is permuted, and the other
      elements keep their relative order. */
  function ArrayMove(s: seq<Todo>, from: int, to: int): (r: seq<Todo>)
    requires 0 <= from < |s| && 0 <= to < |s|
    ensures |r| == |s| && r[to] == s[from]
    ensures RemoveAt(r, to) == RemoveAt(s, from)
    ensures multiset(r) == multiset(s)
  {
    var r := InsertAt(RemoveAt(s, from), to, s[from]);
    MultisetRemoveAt(s, from);
    MultisetRemoveAt(r, to);
    r
  }

  /** Inserting a todo whose id is new keeps the ids unique. */
  lemma InsertAtUnique(s: seq<Todo>, i: int, x: Todo)
    requires UniqueIds(s) && 0 <= i <= |s|
    requires forall j :: 0 <= j < |s| ==> s[j].id != x.id
    ensures UniqueIds(InsertAt(s, i, x))
  {
    var r := InsertAt(s, i, x);
    forall a, b | 0 <= a < |r| && 0 <= b < |r| && r[a].id == r[b].id
      ensures a == b
    {
      var a' := if a < i then a else a - 1;
      var b' := if b < i then b else b - 1;
      if a != i {
        assert r[a] == RemoveAt(r, i)[a'] == s[a'];
      }
      if b != i {
        assert r[b] == RemoveAt(r, i)[b'] == s[b'];
      }
    }
  }

  /** Lists with the same elements have the same ids, and the same delegates. */
  lemma SameElements(s: seq<Todo>, r: seq<Todo>)
    requires multiset(r) == multiset(s)
    ensures Ids(r) == Ids(s)
    ensures CanonicalDelegates(s) ==> CanonicalDelegates(r)
  {
    assert forall t :: t in r <==> t in s by {
      forall t
        ensures t in r <==> t in s
      {
        assert t in r <==> t in multiset(r);
        assert t in s <==> t in multiset(s);
      }
    }
    if CanonicalDelegates(s) {
      forall j | 0 <= j < |r|
        ensures r[j].delegate.Canonical()
      {
        assert r[j] in s;
      }
    }
  }

  /** A move keeps the ids, keeps them unique and keeps delegates canonical. */
  lemma ArrayMoveUnique(s: seq<Todo>, from: int, to: int)
    requires UniqueIds(s) && 0 <= from < |s| && 0 <= to < |s|
    ensures UniqueIds(ArrayMove(s, from, to)) && Ids(ArrayMove(s, from, to)) == Ids(s)
    ensures CanonicalDelegates(s) ==> CanonicalDelegates(ArrayMove(s, from, to))
  {
    RemoveAtUnique(s, from);
    InsertAtUnique(RemoveAt(s, from), to, s[from]);
    SameElements(s, ArrayMove(s, from, to));
  }

  /** The drag-end transition: with a drop target other than the dragged todo,
      the dragged todo is moved to the target's index; otherwise nothing moves. */
  function DragEnd(s: seq<Todo>, active: string, over: Option<string>): (r: seq<Todo>)
    requires active in Ids(s) && (over.Some? ==> over.value in Ids(s))
    ensures over.None? || over.value == active ==> r == s
    ensures |r| == |s|
    ensures multiset(r) == multiset(s)
    ensures over.Some? && over.value != active ==>
      r[FindIndex(s, over.value)] == s[FindIndex(s, active)]
      && RemoveAt(r, FindIndex(s, over.value)) == RemoveAt(s, FindIndex(s, active))
  {
    if over.Some? && active != over.value then
      ArrayMove(s, FindIndex(s, active), FindIndex(s, over.value))
    else s
  }

  // ------------------------------------------------------------- load and order

  /** One loaded row as the client keeps it: `{ ...row, delegate: row.delegate || 'T' }`. */
  function Normalize(row: Row): (t: Todo)
    ensures t.delegate.Tag() == (if row.delegate == "" then "T" else row.delegate)
    ensures t.delegate.Canonical()
    ensures t.id == row.id && t.text == row.text && t.completed == row.completed
    ensures t.createdAt == row.createdAt && t.position == row.position && t.userId == row.userId
  {
    Todo(row.id, row.text, row.completed, row.createdAt, row.position, row.userId,
         FromTag(if row.delegate == "" then "T" else row.delegate))
  }

  /** The row a todo was loaded from, with its tag written back as a string. */
  function ToRow(t: Todo): (row: Row)
    ensures row.delegate == t.delegate.Tag()
    ensures row.id == t.id && row.text == t.text && row.completed == t.completed
    ensures row.createdAt == t.createdAt && row.position == t.position && row.userId == t.userId
  {
    Row(t.id, t.text, t.completed, t.createdAt, t.position, t.userId, t.delegate.Tag())
  }

  /** Normalising the row of a canonical todo gives the todo back. */
  lemma NormalizeToRow(t: Todo)
    requires t.delegate.Canonical()
    ensures Normalize(ToRow(t)) == t
  {
    FromTagOfTag(t.delegate);
  }

  /** Normalisation changes a row only by filling in an empty tag. */
  lemma ToRowNormalize(row: Row)
    ensures ToRow(Normalize(row)) == (if row.delegate == "" then row.(delegate := "T") else row)
  {
  }

  /** `rows.map(Normalize)`. */
  function NormalizeAll(rows: seq<Row>): (r: seq<Todo>)
    ensures |r| == |rows|
    ensures forall i :: 0 <= i < |rows| ==> r[i] == Normalize(rows[i])
  {
    if rows == [] then [] else [Normalize(rows[0])] + NormalizeAll(rows[1..])
  }

  /** Loading keeps length, order and ids, so unique row ids give unique todo
      ids, and every loaded delegate is canonical. */
  lemma NormalizeAllValid(rows: seq<Row>)
    requires UniqueRowIds(rows)
    ensures UniqueIds(NormalizeAll(rows)) && CanonicalDelegates(NormalizeAll(rows))
  {
  }

  /** Positions that match the indices, 0 to N-1: the order the client intends. */
  predicate Dense(s: seq<Todo>) {
    forall i :: 0 <= i < |s| ==> s[i].position == i
  }
}

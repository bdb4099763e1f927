/**
 * The todo record as the client holds it in memory, the row as the remote table
 * returns it, and the signed-in user.
 */
module Todos {

  /** Which of the two parties a todo is delegated to. The record type declares
      only the tags "T" and "K", but the table stores any string and loading
      replaces only the empty tag, so a tag outside the two survives a load;
      `Other` carries such a tag unchanged. */
  datatype Delegate = T | K | Other(tag: string) {

    /** The tag as the client stores and displays it. */
    function Tag(): string {
      match this
      case T => "T"
      case K => "K"
      case Other(s) => s
    }

    /** One of the two tags the record type declares. */
    predicate Declared() {
      T? || K?
    }

    /** `Other` is used only for a tag no other case stands for, so that equal
        tags are equal delegates. */
    predicate Canonical() {
      Other? ==> tag != "" && tag != "T" && tag != "K"
    }
  }

  /** Reads a non-empty tag back as a delegate. */
  function FromTag(s: string): (d: Delegate)
    requires s != ""
    ensures d.Tag() == s && d.Canonical()
    ensures d.Declared() <==> (s == "T" || s == "K")
  {
    if s == "T" then T else if s == "K" then K else Other(s)
  }

  /** A canonical delegate survives the trip through its tag. */
  lemma FromTagOfTag(d: Delegate)
    requires d.Canonical()
    ensures d.Tag() != "" && FromTag(d.Tag()) == d
  {
  }

  /** One todo as the client holds it. */
  datatype Todo = Todo(
    id: string,
    text: string,
    completed: bool,
    createdAt: string,
    position: int,
    userId: string,
    delegate: Delegate)

  /** One row of the remote `todos` table; its delegate column is a plain string. */
  datatype Row = Row(
    id: string,
    text: string,
    completed: bool,
    createdAt: string,
    position: int,
    userId: string,
    delegate: string)

  /** The signed-in user; only the id is used. */
  datatype User = User(id: string)

  /** The ids of the todos in a list. */
  function Ids(s: seq<Todo>): set<string> {
    set t | t in s :: t.id
  }

  /** No two todos of the list share an id (the table's key is the id). */
  predicate UniqueIds(s: seq<Todo>) {
    forall i, j :: 0 <= i < |s| && 0 <= j < |s| && s[i].id == s[j].id ==> i == j
  }

  /** No two rows share an id. */
  predicate UniqueRowIds(rows: seq<Row>) {
    forall i, j :: 0 <= i < |rows| && 0 <= j < |rows| && rows[i].id == rows[j].id ==> i == j
  }

  /** Every todo's delegate is in canonical form. */
  predicate CanonicalDelegates(s: seq<Todo>) {
    forall i :: 0 <= i < |s| ==> s[i].delegate.Canonical()
  }

  lemma IdsCons(s: seq<Todo>)
    requires s != []
    ensures Ids(s) == {s[0].id} + Ids(s[1..])
  {
    assert forall t :: t in s <==> t == s[0] || t in s[1..];
  }
}

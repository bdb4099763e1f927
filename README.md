# Team Cat todo client: a Dafny model of its list state

The client (`src/App.tsx`) keeps the signed-in user's todos in one in-memory list. It changes
that list in response to seven events: load, add, toggle completion, toggle delegate, delete,
reorder by drag and drop, and sign-out. Each event is one small list transformation, wrapped
in a call to the remote `todos` table. This project models that list state and proves what
each transformation does.

Layout, one module per concern:

- `wrappers.dfy` (`Wrappers`): `Option`.
- `text.dfy` (`Text`): JavaScript's `String.prototype.trim`, used by the add handler.
- `todos.dfy` (`Todos`): the `Todo` record (`src/types.ts`), the table `Row`
  (`src/types/supabase.ts`), the user, and the delegate tag.
- `todo_list.dfy` (`TodoList`): the pure list transformations. These are `find`/`findIndex`,
  the two `map` updates, `filter`, dnd-kit's `arrayMove`, the drag-end decision and the load
  normalisation.
- `reorder.dfy` (`Reorder`): the per-item position updates a drag issues. It includes a loop
  method and a model of the remote position column, which shows the final positions do not
  depend on the order in which the updates arrive.
- `app.dfy` (`App`): class `TodoApp`, holding `todos`, `newTodo` and `user`, with one method
  per handler. Each method takes the remote reply as a parameter, returns the call it issues,
  and states its new state in terms of the `TodoList` functions.

Modelling decisions:

- Remote calls are not made. A handler takes the reply as a parameter: `ok: bool`, an
  `InsertReply` or a `FetchReply`. It returns the `Request` it would send, or `None` when it
  sends nothing. Add, toggle, toggle delegate and delete change the list only on success.
  A drag changes the list unconditionally and returns the position updates it issues.
- The server-assigned `id` and `created_at` of a new row arrive with the insert reply. So does
  `completed`: the insert does not send it, and the column default is not part of this model.
- Ids are opaque strings. `TodoApp.Valid()` keeps them unique. The code relies on this:
  `find` takes the first match, while the `map` updates and `filter` act on every match.
  The lemmas that say "only the matching item changes" require unique ids. Without that
  requirement they would be false.
- `Delegate = T | K | Other(tag)`. `src/types.ts:8` declares only "T" and "K". But the table
  column is a plain string (`src/types/supabase.ts:20`), and loading replaces only an empty
  tag (`src/App.tsx:175`). So a stored tag such as "X" survives a load unchanged, and `Other`
  carries it. The toggle maps "T" to "K" and every other tag, `Other` included, to "T".
- The drag handler requires both ids to be in the list. The drag library reports only ids of
  the sortable items, which are the todos themselves.
- The list's `position` fields are not renumbered locally, by a drag or by a delete. Only the
  remote rows receive new positions. `DeleteThenAddRepeatsPosition` shows how a later add then
  repeats a position.
- A failed load returns before `setTodos` (src/App.tsx:168-171), so the list keeps what it held.

## Model

| member | source | states |
|---|---|---|
| `Text.Trim` | src/App.tsx:183 | the trimmed text is the slice of the input after its leading whitespace; everything cut off on either side is whitespace, and the result neither starts nor ends with whitespace |
| `Text.TrimEmptyIffBlank` | src/App.tsx:183 | `newTodo.trim()` is empty exactly when every character of the input is whitespace |
| `Text.TrimIdempotent` | src/App.tsx:190 | trimming the trimmed text changes nothing |
| `Todos.FromTag` | src/App.tsx:175 | a non-empty stored tag is read back as a canonical delegate with the same tag; it is a declared delegate exactly when the tag is "T" or "K" |
| `Todos.FromTagOfTag` | src/types.ts:8 | a canonical delegate's tag is non-empty and reads back as the same delegate |
| `TodoList.FindIndex` | src/App.tsx:271-272 | returns -1 exactly when no todo holds the id; otherwise the first index holding it |
| `TodoList.Find` | src/App.tsx:209-210 | returns nothing exactly when no todo holds the id; otherwise the first todo holding it |
| `TodoList.FindUnique` | src/App.tsx:230 | with unique ids, looking up a todo's id finds that todo and its index |
| `TodoList.UpdateWhere` | src/App.tsx:223-225 | keeps the length; each todo holding the id is replaced by the update of it, and every other todo is kept in place |
| `TodoList.UpdateWhereAbsent` | src/App.tsx:223-225 | an id no todo holds leaves the list unchanged |
| `TodoList.UpdateWhereAt` | src/App.tsx:223-225 | with unique ids, the result is the list with only the matching index replaced |
| `TodoList.CompletionToggled` | src/App.tsx:222-226 | keeps length, order and ids; negates `completed` of the matching todos and leaves all their other fields, and all other todos, unchanged |
| `TodoList.CompletionToggledTwice` | src/App.tsx:224 | toggling completion twice restores the list |
| `TodoList.NextDelegate` | src/App.tsx:233 | the result is always "T" or "K", and it is "K" exactly when the input is "T" |
| `TodoList.NextDelegateTwice` | src/App.tsx:233 | applied twice to "T" or "K" it gives the tag back |
| `TodoList.SetDelegate` | src/App.tsx:245-249 | keeps length, order and ids; the matching todos get the new delegate and nothing else changes |
| `TodoList.DelegateToggled` | src/App.tsx:229-249 | keeps length, order and ids; non-matching todos are unchanged, and matching todos end with "T" or "K" |
| `TodoList.DelegateToggledAt` | src/App.tsx:230-249 | with unique ids, only the one matching todo's delegate changes, to the tag after its own |
| `TodoList.DelegateToggledTwice` | src/App.tsx:229-249 | with unique ids and a declared tag, toggling the delegate twice restores the list |
| `TodoList.RemoveId` | src/App.tsx:263 | a todo survives exactly when it was in the list and does not hold the id; the list does not grow |
| `TodoList.RemoveIdAppend` | src/App.tsx:263 | filtering distributes over concatenation, so the survivors keep their relative order |
| `TodoList.RemoveIdAbsent` | src/App.tsx:263 | deleting an id no todo holds leaves the list unchanged (derived from `RemoveIdNone`) |
| `TodoList.RemoveIdNone` | src/App.tsx:263 | a list in which no index holds the id passes the filter unchanged |
| `TodoList.RemoveIdSplit` | src/App.tsx:263 | filtering out the one todo holding the id between two lists that do not hold it joins those two lists |
| `TodoList.RemoveIdUnique` | src/App.tsx:252-263 | with unique ids, deleting removes exactly the one matching todo and keeps the rest in order |
| `TodoList.RemoveIdKeepsUnique` | src/App.tsx:263 | deleting keeps the remaining ids unique |
| `TodoList.RemoveAt` | src/App.tsx:274 | keeps the elements before the index and shifts the ones after it down by one |
| `TodoList.RemoveAtUnique` | src/App.tsx:274 | with unique ids, taking an element out keeps the remaining ids unique and none of them is the removed id |
| `TodoList.MultisetRemoveAt` | src/App.tsx:274 | taking an element out removes exactly one copy of it from the multiset |
| `TodoList.InsertAt` | src/App.tsx:274 | the inserted element sits at the given index, and removing it again gives back the list |
| `TodoList.InsertAtUnique` | src/App.tsx:274 | inserting a todo whose id no other todo holds keeps the ids unique |
| `TodoList.SameElements` | src/App.tsx:274 | two lists with the same elements have the same ids, and canonical delegates carry over |
| `TodoList.ArrayMove` | src/App.tsx:274 | keeps the length; the moved todo sits at the target index; the result is a permutation; the other todos keep their relative order |
| `TodoList.ArrayMoveUnique` | src/App.tsx:274 | a move keeps the set of ids, keeps them unique and keeps every delegate canonical |
| `TodoList.DragEnd` | src/App.tsx:269-274 | with no drop target, or a target equal to the dragged todo, the list is unchanged; otherwise the list is permuted, the dragged todo sits at the target's old index, and the others keep their relative order |
| `TodoList.Normalize` | src/App.tsx:173-176 | every field of the row is kept, except that an empty delegate becomes "T"; the delegate is canonical |
| `TodoList.ToRow` | src/types/supabase.ts:13-21 | the row carries the todo's fields, with the delegate written as its tag |
| `TodoList.NormalizeToRow` | src/App.tsx:173-176 | normalising the row of a canonical todo gives the todo back |
| `TodoList.ToRowNormalize` | src/App.tsx:175 | normalisation changes a row only by filling an empty tag with "T" |
| `TodoList.NormalizeAll` | src/App.tsx:173 | keeps the length and order, and normalises each row |
| `TodoList.NormalizeAllValid` | src/App.tsx:173-176 | rows with unique ids load into a list with unique ids and canonical delegates |
| `Reorder.IssuePositionUpdates` | src/App.tsx:277-286 | issues one update per todo of the reordered list, in list order, giving the todo at index i position i |
| `Reorder.IssuedPositionsDense` | src/App.tsx:277-281 | the issued positions are exactly 0 to N-1, with no gaps and no repeats |
| `Reorder.IssuedOnePerTodo` | src/App.tsx:277-281 | with unique ids, each todo is targeted by exactly one update: the one at its own index |
| `Reorder.ApplyUpdate` | src/App.tsx:278-281 | an update by id never adds or removes rows |
| `Reorder.ApplyUpdates` | src/App.tsx:277-286 | applying a series of updates never adds or removes rows |
| `Reorder.ApplyUpdatesAt` | src/App.tsx:277-286 | when updates target distinct rows, a row ends with the position of its update, or keeps its own when it has none |
| `Reorder.ApplyUpdatesOrderFree` | src/App.tsx:277-286 | the final positions do not depend on the order in which the updates reach the table |
| `Reorder.ReorderSettles` | src/App.tsx:277-288 | in any arrival order, every stored row of the list ends at its new index and every other row keeps its position |
| `App.TodoApp.constructor` | src/App.tsx:101-107 | the state starts with no todos, an empty input and no user |
| `App.TodoApp.SetNewTodo` | src/App.tsx:341 | typing sets the input and changes nothing else |
| `App.TodoApp.SetUser` | src/App.tsx:140-148 | records the user; when nobody is signed in the list becomes empty |
| `App.TodoApp.FetchTodos` | src/App.tsx:160-177 | with no user or on a load error nothing changes; otherwise the list becomes the normalised rows, in the order served |
| `App.TodoApp.AddTodo` | src/App.tsx:181-206 | a blank input or no user sends nothing and changes nothing; otherwise it sends an insert of the trimmed text at position `length` with delegate "T"; on success it appends exactly the stored todo and clears the input, and on error it leaves list and input unchanged; a dense list stays dense |
| `App.TodoApp.ToggleTodo` | src/App.tsx:208-227 | an absent id sends nothing and changes nothing; otherwise it sends the negated flag of the first match; on success the list becomes the completion-toggled list, and on error it is unchanged |
| `App.TodoApp.ToggleDelegate` | src/App.tsx:229-250 | an absent id sends nothing and changes nothing; otherwise it sends the tag after the first match's; on success the list becomes the delegate-toggled list, and on error it is unchanged |
| `App.TodoApp.DeleteTodo` | src/App.tsx:252-264 | always sends the delete; on success the list is filtered to the other ids, and on error it is unchanged |
| `App.TodoApp.HandleDragEnd` | src/App.tsx:266-291 | the list becomes the drag-end result without awaiting any reply; after a real move it issues one position update per todo of the new list, and otherwise none |
| `App.SignOutClears` | src/App.tsx:144-146 | after a sign-out the list is empty, whatever it held |
| `App.BlankAddDoesNothing` | src/App.tsx:183 | submitting any whitespace-only input sends nothing, leaves the list unchanged and keeps the input |
| `App.DragExample` | src/App.tsx:266-288 | for any four todos [A, B, C, D] with distinct ids, dragging A onto C gives [B, C, A, D] |
| `App.DragExampleUpdates` | src/App.tsx:277-286 | the updates issued for [B, C, A, D] are exactly B:0, C:1, A:2, D:3 |
| `App.DeleteThenAddRepeatsPosition` | src/App.tsx:185 | deleting the first of three todos with distinct ids and positions 0, 1, 2 leaves [B, C]; that list is not dense, and the next add's position, its length 2, is the position C already holds |

## Left out

- The remote client's select, insert, update and delete calls, and the auth calls. These are
  external I/O: getSession, onAuthStateChange, signInWithPassword and signOut. They are
  replaced by reply parameters and returned requests. Row-level filtering by owner and the
  server-side `order('position')` belong to the store. Rows arrive as the store orders them.
- Asynchrony and interleaving: interleaved awaited calls, handlers reading a stale `todos`
  closure, and the fire-and-forget `forEach(async …)`. Handlers run one at a time. The
  position updates are a list whose arrival order `ApplyUpdatesOrderFree` shows is
  irrelevant. A partial failure of those updates is not modelled: the store applies an
  update to an existing row and ignores one for a missing row.
- The drag library's unguarded `findIndex` result of -1. dnd-kit's `arrayMove` for a
  negative index is not part of this model. The drag handler requires both ids to be present
  instead, because the library reports only listed ids.
- Drag sensors, collision detection, sortable transforms, all rendering, and the empty-list
  message: these are UI.
- The light/dark theme flag and its browser storage: this is browser I/O with no list logic.
- Error logging to the console.
- `TodoList.DelegateToggled`: its own contract says only that matching todos end with a
  declared tag. The exact new value, for the unique-id case, is in `DelegateToggledAt`.

/**
 * The planner's stored data and its edits: events are kept per day key, as a
 * map from key to the list of that day's events, and todos as one list. An
 * edit takes the old value and gives the new one, as the state setters of the
 * planner do. The ids (the clock's `Date.now()`) and the accent colour are
 * parameters.
 */
module Planner {
  import opened Text

  datatype Event = Event(id: int, text: string, color: string)
  datatype Todo = Todo(id: int, text: string, completed: bool, color: string)

  type Events = map<string, seq<Event>>

  // ---------------------------------------------------------------------
  // Lists

  /** `xs.map(f)` */
  function Map<T>(xs: seq<T>, f: T -> T): (r: seq<T>)
    ensures |r| == |xs|
    ensures forall i :: 0 <= i < |xs| ==> r[i] == f(xs[i])
  {
    if xs == [] then [] else [f(xs[0])] + Map(xs[1..], f)
  }

  // ---------------------------------------------------------------------
  // Events

  /** `p[k] || []`: the events of a day, none when the key is absent. */
  function EventsOf(p: Events, k: string): seq<Event> {
    if k in p then p[k] else []
  }

  /** The stored map never holds a day with an empty list. */
  predicate NoEmptyDays(p: Events) {
    forall k :: k in p ==> p[k] != []
  }

  /** `addEvent`: nothing when the typed text is blank; otherwise a new event
      with the trimmed text, the given id and the accent colour is appended to
      the day's list, the other days unchanged. */
  function AddEvent(p: Events, k: string, newEvent: string, now: int, accent: string): (q: Events)
    ensures Trim(newEvent) == [] ==> q == p
    ensures Trim(newEvent) != [] ==>
      && q.Keys == p.Keys + {k}
      && q[k] == EventsOf(p, k) + [Event(now, Trim(newEvent), accent)]
      && (forall j :: j in p && j != k ==> q[j] == p[j])
  {
    var text := Trim(newEvent);
    if text == [] then p
    else p[k := EventsOf(p, k) + [Event(now, text, accent)]]
  }

  /** The test `e => e.id !== id`. */
  function OtherEvent(id: int): Event -> bool {
    (e: Event) => e.id != id
  }

  /** The day's list without the events of the given id. */
  function WithoutEvent(es: seq<Event>, id: int): (r: seq<Event>)
    ensures forall e :: e in r <==> e in es && e.id != id
    ensures (forall e :: e in es ==> e.id != id) ==> r == es
    ensures |r| < |es| <==> exists e :: e in es && e.id == id
  {
    FilterAll(es, OtherEvent(id));
    FilterLength(es, OtherEvent(id));
    Filter(es, OtherEvent(id))
  }

  /** Removing works event by event: an event stays exactly when its id
      differs, and the remaining events keep their order and repetitions. */
  lemma WithoutEventAppend(xs: seq<Event>, ys: seq<Event>, e: Event, id: int)
    ensures WithoutEvent(xs + ys, id) == WithoutEvent(xs, id) + WithoutEvent(ys, id)
    ensures WithoutEvent([e], id) == if e.id != id then [e] else []
  {
    FilterAppend(xs, ys, OtherEvent(id));
    assert [e][1..] == [];
  }

  /** What `delEvent(k, id)` leaves: the day without the events of that id,
      and no entry at all for the day once its list is empty. */
  function DeletedEvent(p: Events, k: string, id: int): (q: Events)
    ensures forall j :: j != k ==> (j in q <==> j in p) && (j in p ==> q[j] == p[j])
    ensures k in q <==> WithoutEvent(EventsOf(p, k), id) != []
    ensures k in q ==> q[k] == WithoutEvent(EventsOf(p, k), id)
  {
    var kept := WithoutEvent(EventsOf(p, k), id);
    if kept == [] then p - {k} else p[k := kept]
  }

  /** `delEvent(k, id)`: copy the map, filter the day's list, and delete the
      day once its list is empty. */
  method DelEvent(p: Events, k: string, id: int) returns (next: Events)
    ensures next == DeletedEvent(p, k, id)
    ensures forall e :: e in EventsOf(next, k) ==> e.id != id
  {
    next := p;
    next := next[k := WithoutEvent(EventsOf(p, k), id)];
    if |next[k]| == 0 {
      next := next - {k};
    }
  }

  /** `editEventText(k, id, text)`: the events of that id on that day take
      the new text; the list keeps its length, its order, the ids and the
      colours. The day is set even when it had no list, to an empty one. */
  function EditEventText(p: Events, k: string, id: int, text: string): (q: Events)
    ensures q.Keys == p.Keys + {k}
    ensures forall j :: j in p && j != k ==> q[j] == p[j]
    ensures |q[k]| == |EventsOf(p, k)|
    ensures forall i :: 0 <= i < |q[k]| ==>
      var e := EventsOf(p, k)[i];
      q[k][i] == if e.id == id then Event(e.id, text, e.color) else e
  {
    p[k := Map(EventsOf(p, k), (e: Event) => if e.id == id then e.(text := text) else e)]
  }

  /** Adding an event keeps every day non-empty, and so does deleting one. */
  lemma NoEmptyDaysKept(p: Events, k: string, newEvent: string, now: int, accent: string, id: int)
    requires NoEmptyDays(p)
    ensures NoEmptyDays(AddEvent(p, k, newEvent, now, accent))
    ensures NoEmptyDays(DeletedEvent(p, k, id))
  {
  }

  /** Deleting the events of an id from a day whose list was extended by
      one event of that id, and had none before, gives back the map. */
  lemma DeleteAppended(p: Events, k: string, added: Event)
    requires NoEmptyDays(p)
    requires forall e :: e in EventsOf(p, k) ==> e.id != added.id
    ensures DeletedEvent(p[k := EventsOf(p, k) + [added]], k, added.id) == p
  {
    var old' := EventsOf(p, k);
    var keep := OtherEvent(added.id);
    FilterAppend(old', [added], keep);
    FilterAll(old', keep);
    assert Filter([added], keep) == [];
    var a := p[k := old' + [added]];
    assert WithoutEvent(EventsOf(a, k), added.id) == old';
    var q := DeletedEvent(a, k, added.id);
    if k in p {
      assert q == a[k := old'];
    } else {
      assert q == a - {k};
    }
  }

  /** Deleting an event that was just added, under an id no event of that
      day had, gives back the map from before. */
  lemma AddThenDelete(p: Events, k: string, newEvent: string, now: int, accent: string)
    requires NoEmptyDays(p) && Trim(newEvent) != []
    requires forall e :: e in EventsOf(p, k) ==> e.id != now
    ensures DeletedEvent(AddEvent(p, k, newEvent, now, accent), k, now) == p
  {
    DeleteAppended(p, k, Event(now, Trim(newEvent), accent));
  }

  /** Deleting twice is deleting once. */
  lemma DeleteIdempotent(p: Events, k: string, id: int)
    ensures DeletedEvent(DeletedEvent(p, k, id), k, id) == DeletedEvent(p, k, id)
  {
    FilterTwice(EventsOf(p, k), OtherEvent(id));
  }

  /** Editing a text twice is editing it once, on a day that has a list. */
  lemma EditIdempotent(p: Events, k: string, id: int, text: string)
    ensures var q := EditEventText(p, k, id, text);
      EditEventText(q, k, id, text) == q
  {
    var q := EditEventText(p, k, id, text);
    var r := EditEventText(q, k, id, text);
    assert r[k] == q[k];
  }

  // ---------------------------------------------------------------------
  // Todos

  /** `addTodo`: nothing when the typed text is blank; otherwise a new
      unfinished todo with the trimmed text is appended. */
  function AddTodo(todos: seq<Todo>, newTodo: string, now: int, accent: string): (r: seq<Todo>)
    ensures Trim(newTodo) == [] ==> r == todos
    ensures Trim(newTodo) != [] ==>
      |r| == |todos| + 1 && r[..|todos|] == todos && r[|todos|] == Todo(now, Trim(newTodo), false, accent)
  {
    var text := Trim(newTodo);
    if text == [] then todos else todos + [Todo(now, text, false, accent)]
  }

  /** `toggleTodo(id)`: the todos of that id flip their completed flag; all
      else stays. */
  function ToggleTodo(todos: seq<Todo>, id: int): (r: seq<Todo>)
    ensures |r| == |todos|
    ensures forall i :: 0 <= i < |todos| ==>
      r[i] == if todos[i].id == id then todos[i].(completed := !todos[i].completed) else todos[i]
  {
    Map(todos, (t: Todo) => if t.id == id then t.(completed := !t.completed) else t)
  }

  /** The test `t => t.id !== id`. */
  function OtherTodo(id: int): Todo -> bool {
    (t: Todo) => t.id != id
  }

  /** `delTodo(id)`: the todos without those of that id, in their order. */
  function DelTodo(todos: seq<Todo>, id: int): (r: seq<Todo>)
    ensures forall t :: t in r <==> t in todos && t.id != id
    ensures (forall t :: t in todos ==> t.id != id) ==> r == todos
    ensures |r| < |todos| <==> exists t :: t in todos && t.id == id
  {
    FilterAll(todos, OtherTodo(id));
    FilterLength(todos, OtherTodo(id));
    Filter(todos, OtherTodo(id))
  }

  /** Deleting works item by item: an item stays exactly when its id
      differs, and the remaining items keep their order and repetitions. */
  lemma DelTodoAppend(xs: seq<Todo>, ys: seq<Todo>, t: Todo, id: int)
    ensures DelTodo(xs + ys, id) == DelTodo(xs, id) + DelTodo(ys, id)
    ensures DelTodo([t], id) == if t.id != id then [t] else []
  {
    FilterAppend(xs, ys, OtherTodo(id));
    assert [t][1..] == [];
  }

  /** Toggling the same todo twice restores the list. */
  lemma ToggleTwice(todos: seq<Todo>, id: int)
    ensures ToggleTodo(ToggleTodo(todos, id), id) == todos
  {
    var once := ToggleTodo(todos, id);
    var twice := ToggleTodo(once, id);
    assert forall i :: 0 <= i < |todos| ==> twice[i] == todos[i];
  }

  /** Deleting a todo just added under a fresh id restores the list. */
  lemma AddThenDelTodo(todos: seq<Todo>, newTodo: string, now: int, accent: string)
    requires forall t :: t in todos ==> t.id != now
    ensures DelTodo(AddTodo(todos, newTodo, now, accent), now) == todos
  {
    var keep := OtherTodo(now);
    FilterAll(todos, keep);
    var text := Trim(newTodo);
    if text != [] {
      FilterAppend(todos, [Todo(now, text, false, accent)], keep);
    }
  }
}

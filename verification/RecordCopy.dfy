/**
 Copy isolation: the work-stack copy of a JSON tree on the heap, and a record
 that holds one such copy and hands out others.
 */
module RecordCopy {
  import opened Texts
  import J = Json
  import C = Canonical

  /** What a Python variable or slot holds: an immutable scalar, or a dict or list on the heap. */
  datatype Value = Scalar(leaf: J.Json) | Box(c: Container)

  class Container {
    const isObject: bool
    var members: map<Text, Value>
    var items: seq<Value>

    /** `{}` */
    constructor Dict()
      ensures isObject && members == map[] && items == []
    {
      isObject := true;
      members := map[];
      items := [];
    }

    /** `[None] * n` */
    constructor List(n: nat)
      ensures !isObject && members == map[] && |items| == n
    {
      isObject := false;
      members := map[];
      items := seq(n, _ => Scalar(J.Null));
    }
  }

  /** v stands for the JSON value j, using containers of s only. Containers may be shared, cycles are impossible. */
  ghost predicate Depicts(v: Value, j: J.Json, s: set<Container>)
    reads s
    decreases j
  {
    match v
    case Scalar(leaf) => leaf == j && !j.Arr? && !j.Obj?
    case Box(c) =>
      && c in s
      && if c.isObject then
           j.Obj? && c.members.Keys == j.members.Keys && forall k :: k in j.members ==> Depicts(c.members[k], j.members[k], s)
         else
           j.Arr? && |c.items| == |j.items| && forall i :: 0 <= i < |j.items| ==> Depicts(c.items[i], j.items[i], s)
  }

  /** A heap value stands for one JSON value: two that stand for the same one are structurally equal. */
  lemma {:induction false} DepictsOne(v: Value, a: J.Json, b: J.Json, s: set<Container>, t: set<Container>)
    requires Depicts(v, a, s) && Depicts(v, b, t)
    ensures a == b
    decreases a
  {
    if v.Box? {
      if v.c.isObject {
        forall k | k in a.members ensures a.members[k] == b.members[k] {
          DepictsOne(v.c.members[k], a.members[k], b.members[k], s, t);
        }
        assert a.members == b.members;
      } else {
        forall i | 0 <= i < |a.items| ensures a.items[i] == b.items[i] {
          DepictsOne(v.c.items[i], a.items[i], b.items[i], s, t);
        }
        assert a.items == b.items;
      }
    }
  }

  // ---------------------------------------------------------------------
  // The state of the copy loop
  // ---------------------------------------------------------------------

  datatype Slot = Key(k: Text) | At(i: nat)

  /** One entry of the work list: copy this node into that slot of that container. */
  datatype Task = Task(node: Value, parent: Container, slot: Slot)

  ghost predicate HasSlot(j: J.Json, slot: Slot)
  {
    match slot
    case Key(k) => j.Obj? && k in j.members
    case At(i) => j.Arr? && i < |j.items|
  }

  ghost function SlotOf(j: J.Json, slot: Slot): J.Json
    requires HasSlot(j, slot)
  {
    match slot
    case Key(k) => j.members[k]
    case At(i) => j.items[i]
  }

  /** The new containers so far, each with the value it is to stand for. */
  type Plan = map<Container, J.Json>

  /** What a container holds at a moment. */
  datatype Contents = Contents(members: map<Text, Value>, items: seq<Value>)

  function ContentsOf(c: Container): Contents
    reads c
  {
    Contents(c.members, c.items)
  }

  ghost predicate Shaped(x: Contents, j: J.Json)
  {
    if j.Obj? then x.members.Keys <= j.members.Keys else j.Arr? && |x.items| == |j.items|
  }

  ghost predicate Fits(v: Value, j: J.Json, plan: Plan)
  {
    match v
    case Scalar(leaf) => leaf == j && !j.Arr? && !j.Obj?
    case Box(c) => c in plan && plan[c] == j
  }

  /** The slot already holds what it should. */
  ghost predicate Filled(x: Contents, slot: Slot, j: J.Json, plan: Plan)
    requires HasSlot(j, slot)
  {
    match slot
    case Key(k) => k in x.members && Fits(x.members[k], j.members[k], plan)
    case At(i) => i < |x.items| && Fits(x.items[i], j.items[i], plan)
  }

  ghost predicate Pending(work: seq<Task>, c: Container, slot: Slot)
  {
    exists n :: 0 <= n < |work| && work[n].parent == c && work[n].slot == slot
  }

  ghost predicate TaskOk(t: Task, j: J.Json, s: set<Container>, plan: Plan)
    reads s
  {
    t.parent in plan && HasSlot(plan[t.parent], t.slot) && SlotOf(plan[t.parent], t.slot) == j && Depicts(t.node, j, s)
  }

  ghost predicate TasksOk(work: seq<Task>, todo: seq<J.Json>, s: set<Container>, plan: Plan)
    reads s
  {
    |todo| == |work| && forall n :: 0 <= n < |work| ==> TaskOk(work[n], todo[n], s, plan)
  }

  /** A new container's slots are each pending or filled. */
  ghost predicate SlotsOk(work: seq<Task>, c: Container, x: Contents, plan: Plan)
    requires c in plan
  {
    && (c.isObject <==> plan[c].Obj?) && Shaped(x, plan[c])
    && forall slot :: HasSlot(plan[c], slot) ==> Pending(work, c, slot) || Filled(x, slot, plan[c], plan)
  }

  ghost predicate PlanOk(work: seq<Task>, plan: Plan)
    reads plan.Keys
  {
    forall c :: c in plan ==> SlotsOk(work, c, ContentsOf(c), plan)
  }

  /** How much is still to be copied. */
  ghost function Remaining(todo: seq<J.Json>): nat
  {
    if todo == [] then 0 else Remaining(todo[..|todo| - 1]) + J.Nodes(todo[|todo| - 1])
  }

  lemma RemainingPush(todo: seq<J.Json>, j: J.Json)
    ensures Remaining(todo + [j]) == Remaining(todo) + J.Nodes(j)
  {
    assert (todo + [j])[..|todo|] == todo;
  }

  // ---------------------------------------------------------------------
  // Finished copies
  // ---------------------------------------------------------------------

  /** When nothing is pending every new container stands for its value. */
  lemma {:induction false} FinishedDepicts(v: Value, j: J.Json, plan: Plan)
    requires PlanOk([], plan) && Fits(v, j, plan)
    ensures Depicts(v, j, plan.Keys)
    decreases j
  {
    if v.Box? {
      var c := v.c;
      assert SlotsOk([], c, ContentsOf(c), plan);
      if c.isObject {
        forall k | k in j.members ensures k in c.members && Depicts(c.members[k], j.members[k], plan.Keys) {
          assert HasSlot(plan[c], Key(k));
          assert Filled(ContentsOf(c), Key(k), j, plan);
          FinishedDepicts(c.members[k], j.members[k], plan);
        }
      } else {
        forall i: nat | i < |j.items| ensures Depicts(c.items[i], j.items[i], plan.Keys) {
          assert HasSlot(plan[c], At(i));
          assert Filled(ContentsOf(c), At(i), j, plan);
          FinishedDepicts(c.items[i], j.items[i], plan);
        }
      }
    }
  }

  // ---------------------------------------------------------------------
  // Steps
  // ---------------------------------------------------------------------

  function Put(x: Contents, slot: Slot, v: Value): Contents
    requires slot.At? ==> slot.i < |x.items|
  {
    match slot
    case Key(k) => x.(members := x.members[k := v])
    case At(i) => x.(items := x.items[i := v])
  }

  /** `parent[slot] = v` */
  method Assign(c: Container, slot: Slot, v: Value)
    requires slot.At? ==> slot.i < |c.items|
    modifies c
    ensures ContentsOf(c) == old(Put(ContentsOf(c), slot, v))
  {
    match slot {
      case Key(k) => c.members := c.members[k := v];
      case At(i) => c.items := c.items[i := v];
    }
  }

  ghost predicate KeysPending(work: seq<Task>, c: Container, keys: seq<Text>)
  {
    forall k :: k in keys ==> Pending(work, c, Key(k))
  }

  ghost predicate IndicesPending(work: seq<Task>, c: Container, n: nat)
  {
    forall i: nat :: i < n ==> Pending(work, c, At(i))
  }

  lemma PushKey(work: seq<Task>, todo: seq<J.Json>, t: Task, j: J.Json, s: set<Container>, plan: Plan, keys: seq<Text>)
    requires TasksOk(work, todo, s, plan) && TaskOk(t, j, s, plan) && t.slot.Key? && KeysPending(work, t.parent, keys)
    ensures TasksOk(work + [t], todo + [j], s, plan) && KeysPending(work + [t], t.parent, keys + [t.slot.k])
    ensures Remaining(todo + [j]) == Remaining(todo) + J.Nodes(j)
  {
    PushOne(work, todo, t, j, s, plan);
    RemainingPush(todo, j);
  }

  lemma PushIndex(work: seq<Task>, todo: seq<J.Json>, t: Task, j: J.Json, s: set<Container>, plan: Plan, n: nat)
    requires TasksOk(work, todo, s, plan) && TaskOk(t, j, s, plan) && t.slot == At(n) && IndicesPending(work, t.parent, n)
    ensures TasksOk(work + [t], todo + [j], s, plan) && IndicesPending(work + [t], t.parent, n + 1)
    ensures Remaining(todo + [j]) == Remaining(todo) + J.Nodes(j)
  {
    PushOne(work, todo, t, j, s, plan);
    RemainingPush(todo, j);
  }

  /** The members of a source dict as tasks for its copy. */
  method PushMembers(work: seq<Task>, ghost todo: seq<J.Json>, source: Container, copied: Container, keys: seq<Text>,
                     ghost j: J.Json, ghost s: set<Container>, ghost plan: Plan)
    returns (more: seq<Task>, ghost moreTodo: seq<J.Json>)
    requires Depicts(Box(source), j, s) && j.Obj? && copied in plan && plan[copied] == j && TasksOk(work, todo, s, plan)
    requires forall k :: k in keys ==> k in j.members
    ensures TasksOk(more, moreTodo, s, plan) && work <= more && KeysPending(more, copied, keys)
    ensures Remaining(moreTodo) == Remaining(todo) + J.NodesAt(keys, j.members, j)
  {
    more, moreTodo := work, todo;
    for n := 0 to |keys|
      invariant TasksOk(more, moreTodo, s, plan) && work <= more && KeysPending(more, copied, keys[..n])
      invariant Remaining(moreTodo) == Remaining(todo) + J.NodesAt(keys[..n], j.members, j)
    {
      var t := Task(source.members[keys[n]], copied, Key(keys[n]));
      TakeStep(keys, n);
      assert TaskOk(t, j.members[keys[n]], s, plan);
      PushKey(more, moreTodo, t, j.members[keys[n]], s, plan, keys[..n]);
      more, moreTodo := more + [t], moreTodo + [j.members[keys[n]]];
    }
    TakeAll(keys);
  }

  /** The items of a source list as tasks for its copy. */
  method PushItems(work: seq<Task>, ghost todo: seq<J.Json>, source: Container, copied: Container,
                   ghost j: J.Json, ghost s: set<Container>, ghost plan: Plan)
    returns (more: seq<Task>, ghost moreTodo: seq<J.Json>)
    requires Depicts(Box(source), j, s) && j.Arr? && copied in plan && plan[copied] == j && TasksOk(work, todo, s, plan)
    ensures TasksOk(more, moreTodo, s, plan) && work <= more && IndicesPending(more, copied, |j.items|)
    ensures Remaining(moreTodo) == Remaining(todo) + J.NodesOf(j.items, j)
  {
    more, moreTodo := work, todo;
    for n := 0 to |source.items|
      invariant TasksOk(more, moreTodo, s, plan) && work <= more && IndicesPending(more, copied, n)
      invariant Remaining(moreTodo) == Remaining(todo) + J.NodesOf(j.items[..n], j)
    {
      var t := Task(source.items[n], copied, At(n));
      TakeStep(j.items, n);
      assert TaskOk(t, j.items[n], s, plan);
      PushIndex(more, moreTodo, t, j.items[n], s, plan, n);
      more, moreTodo := more + [t], moreTodo + [j.items[n]];
    }
    TakeAll(j.items);
  }

  /** All children of a source container. */
  method PushChildren(work: seq<Task>, ghost todo: seq<J.Json>, source: Container, copied: Container,
                      ghost j: J.Json, ghost s: set<Container>, ghost plan: Plan)
    returns (more: seq<Task>, ghost moreTodo: seq<J.Json>)
    requires Depicts(Box(source), j, s) && copied in plan && plan[copied] == j && TasksOk(work, todo, s, plan)
    ensures TasksOk(more, moreTodo, s, plan) && work <= more
    ensures AllPending(more, copied, j)
    ensures Remaining(moreTodo) == Remaining(todo) + J.Nodes(j) - 1
  {
    if source.isObject {
      var keys := KeysOf(source);
      more, moreTodo := PushMembers(work, todo, source, copied, keys, j, s, plan);
      AllKeysPending(more, copied, j, keys);
    } else {
      more, moreTodo := PushItems(work, todo, source, copied, j, s, plan);
      AllItemsPending(more, copied, j);
    }
  }

  ghost predicate AllPending(work: seq<Task>, c: Container, j: J.Json)
  {
    forall slot :: HasSlot(j, slot) ==> Pending(work, c, slot)
  }

  lemma AllItemsPending(work: seq<Task>, c: Container, j: J.Json)
    requires j.Arr? && IndicesPending(work, c, |j.items|)
    ensures AllPending(work, c, j)
    ensures J.Nodes(j) == 1 + J.NodesOf(j.items, j)
  {}

  ghost predicate ListsKeys(keys: seq<Text>, members: map<Text, J.Json>)
  {
    keys == Sorted(members.Keys)
  }

  method KeysOf(source: Container) returns (keys: seq<Text>)
    ensures SetOf(keys) == source.members.Keys
    ensures forall m: map<Text, J.Json> :: m.Keys == source.members.Keys ==> ListsKeys(keys, m)
  {
    keys := Sorted(source.members.Keys);
  }

  lemma AllKeysPending(work: seq<Task>, c: Container, j: J.Json, keys: seq<Text>)
    requires j.Obj? && ListsKeys(keys, j.members) && KeysPending(work, c, keys)
    requires forall k :: k in keys ==> k in j.members
    ensures AllPending(work, c, j)
    ensures J.Nodes(j) == 1 + J.NodesAt(keys, j.members, j)
  {
    forall slot | HasSlot(j, slot) ensures Pending(work, c, slot) {
      assert slot.k in keys;
    }
  }

  lemma PushOne(work: seq<Task>, todo: seq<J.Json>, t: Task, j: J.Json, s: set<Container>, plan: Plan)
    requires TasksOk(work, todo, s, plan) && TaskOk(t, j, s, plan)
    ensures TasksOk(work + [t], todo + [j], s, plan) && Pending(work + [t], t.parent, t.slot)
    ensures forall c, slot :: Pending(work, c, slot) ==> Pending(work + [t], c, slot)
  {
    var more := work + [t];
    assert more[|work|] == t;
    forall c, slot | Pending(work, c, slot) ensures Pending(more, c, slot) {
      var n :| 0 <= n < |work| && work[n].parent == c && work[n].slot == slot;
      assert more[n] == work[n];
    }
  }

  lemma PopTask(work: seq<Task>, todo: seq<J.Json>, s: set<Container>, plan: Plan)
    requires TasksOk(work, todo, s, plan) && work != []
    ensures var n := |work| - 1;
      && TaskOk(work[n], todo[n], s, plan) && TasksOk(work[..n], todo[..n], s, plan)
      && Remaining(todo) == Remaining(todo[..n]) + J.Nodes(todo[n])
  {
    var n := |work| - 1;
    assert TaskOk(work[n], todo[n], s, plan);
  }

  /** Everything the loop knows: the tasks, the plan, and that all new containers are outside the source. */
  ghost predicate Copying(work: seq<Task>, todo: seq<J.Json>, s: set<Container>, plan: Plan)
    reads s, plan.Keys
  {
    TasksOk(work, todo, s, plan) && PlanOk(work, plan) && plan.Keys !! s
  }

  ghost predicate Extends(plan: Plan, plan': Plan)
  {
    forall c :: c in plan ==> c in plan' && plan'[c] == plan[c]
  }

  /** Taking a task of another container off the list changes nothing here. */
  lemma SlotsKept(work: seq<Task>, c: Container, x: Contents, plan: Plan, plan': Plan)
    requires work != [] && c in plan && SlotsOk(work, c, x, plan) && Extends(plan, plan')
    requires c != work[|work| - 1].parent
    ensures SlotsOk(work[..|work| - 1], c, x, plan')
  {
    forall slot | HasSlot(plan[c], slot)
      ensures Pending(work[..|work| - 1], c, slot) || Filled(x, slot, plan[c], plan')
    {
      LastPending(work, c, slot);
    }
  }

  /** Doing a task fills its slot. */
  lemma SlotFilled(work: seq<Task>, c: Container, x: Contents, plan: Plan, plan': Plan, v: Value)
    requires work != [] && c in plan && SlotsOk(work, c, x, plan) && Extends(plan, plan')
    requires var t := work[|work| - 1];
      c == t.parent && HasSlot(plan[c], t.slot) && Fits(v, SlotOf(plan[c], t.slot), plan')
    ensures SlotsOk(work[..|work| - 1], c, Put(x, work[|work| - 1].slot, v), plan')
  {
    var y := Put(x, work[|work| - 1].slot, v);
    forall slot | HasSlot(plan[c], slot)
      ensures Pending(work[..|work| - 1], c, slot) || Filled(y, slot, plan[c], plan')
    {
      LastPending(work, c, slot);
    }
  }

  lemma LastPending(work: seq<Task>, c: Container, slot: Slot)
    requires work != []
    ensures Pending(work, c, slot) ==>
      Pending(work[..|work| - 1], c, slot) || (c == work[|work| - 1].parent && slot == work[|work| - 1].slot)
  {
    if Pending(work, c, slot) {
      var m :| 0 <= m < |work| && work[m].parent == c && work[m].slot == slot;
      if m < |work| - 1 { assert work[..|work| - 1][m] == work[m]; }
    }
  }

  /** Does the last task with the given value: that one slot changes, and nothing else. */
  method FillLast(work: seq<Task>, ghost todo: seq<J.Json>, ghost s: set<Container>, ghost plan: Plan,
                  v: Value, ghost plan': Plan)
    requires Copying(work, todo, s, plan) && work != [] && Extends(plan, plan') && Fits(v, todo[|todo| - 1], plan')
    modifies work[|work| - 1].parent
    ensures var t := work[|work| - 1];
      && (t.slot.At? ==> t.slot.i < |old(ContentsOf(t.parent)).items|)
      && ContentsOf(t.parent) == Put(old(ContentsOf(t.parent)), t.slot, v)
      && forall c :: c in plan && c != t.parent ==> ContentsOf(c) == old(ContentsOf(c))
    ensures forall c :: c in plan ==> SlotsOk(work[..|work| - 1], c, ContentsOf(c), plan')
  {
    var t := work[|work| - 1];
    PopTask(work, todo, s, plan);
    assert SlotsOk(work, t.parent, ContentsOf(t.parent), plan);
    Assign(t.parent, t.slot, v);
    forall c | c in plan ensures SlotsOk(work[..|work| - 1], c, ContentsOf(c), plan') {
      if c == t.parent {
        SlotFilled(work, c, old(ContentsOf(c)), plan, plan', v);
      } else {
        assert ContentsOf(c) == old(ContentsOf(c));
        SlotsKept(work, c, ContentsOf(c), plan, plan');
      }
    }
  }

  /** A scalar goes straight into its slot. */
  method CopyScalar(work: seq<Task>, ghost todo: seq<J.Json>, ghost s: set<Container>, ghost plan: Plan)
    returns (rest: seq<Task>, ghost restTodo: seq<J.Json>)
    requires Copying(work, todo, s, plan) && work != [] && work[|work| - 1].node.Scalar?
    modifies work[|work| - 1].parent
    ensures Copying(rest, restTodo, s, plan) && Remaining(restTodo) < Remaining(todo)
  {
    PopTask(work, todo, s, plan);
    FillLast(work, todo, s, plan, work[|work| - 1].node, plan);
    rest, restTodo := work[..|work| - 1], todo[..|todo| - 1];
  }

  /** A container gets a fresh copy in its slot, and its children join the work. */
  method CopyContainer(work: seq<Task>, ghost todo: seq<J.Json>, ghost s: set<Container>, ghost plan: Plan)
    returns (more: seq<Task>, ghost moreTodo: seq<J.Json>, ghost plan': Plan)
    requires Copying(work, todo, s, plan) && work != [] && work[|work| - 1].node.Box?
    modifies work[|work| - 1].parent
    ensures Copying(more, moreTodo, s, plan') && Remaining(moreTodo) < Remaining(todo)
    ensures plan.Keys <= plan'.Keys && fresh(plan'.Keys - plan.Keys) && Extends(plan, plan')
  {
    ghost var j := todo[|todo| - 1];
    var rest := work[..|work| - 1];
    ghost var restTodo := todo[..|todo| - 1];
    PopTask(work, todo, s, plan);
    var source := work[|work| - 1].node.c;
    var copied := NewLike(source, j, s);
    plan' := plan[copied := j];
    PlaceCopy(work, todo, s, plan, copied);
    more, moreTodo := PushChildren(rest, restTodo, source, copied, j, s, plan');
    PlanCompleted(rest, more, plan, plan', copied);
  }

  /** Puts a new container into the slot of the last task. */
  method PlaceCopy(work: seq<Task>, ghost todo: seq<J.Json>, ghost s: set<Container>, ghost plan: Plan, copied: Container)
    requires Copying(work, todo, s, plan) && work != [] && copied !in plan
    modifies work[|work| - 1].parent
    ensures TasksOk(work[..|work| - 1], todo[..|todo| - 1], s, plan[copied := todo[|todo| - 1]])
    ensures forall c :: c in plan ==> SlotsOk(work[..|work| - 1], c, ContentsOf(c), plan[copied := todo[|todo| - 1]])
  {
    PopTask(work, todo, s, plan);
    FillLast(work, todo, s, plan, Box(copied), plan[copied := todo[|todo| - 1]]);
    GrownTasks(work[..|work| - 1], todo[..|todo| - 1], s, plan, copied, todo[|todo| - 1]);
  }

  lemma PlanCompleted(work: seq<Task>, more: seq<Task>, plan: Plan, plan': Plan, copied: Container)
    requires work <= more && copied in plan' && plan'.Keys == plan.Keys + {copied}
    requires forall c :: c in plan ==> SlotsOk(work, c, ContentsOf(c), plan')
    requires (copied.isObject <==> plan'[copied].Obj?) && Shaped(ContentsOf(copied), plan'[copied])
    requires AllPending(more, copied, plan'[copied])
    ensures PlanOk(more, plan')
  {
    forall c | c in plan' ensures SlotsOk(more, c, ContentsOf(c), plan') {
      if c != copied { MoreSlots(work, more, c, ContentsOf(c), plan'); }
    }
  }

  lemma MoreSlots(work: seq<Task>, more: seq<Task>, c: Container, x: Contents, plan: Plan)
    requires work <= more && c in plan && SlotsOk(work, c, x, plan)
    ensures SlotsOk(more, c, x, plan)
  {
    StillPending(work, more);
  }

  method NewLike(source: Container, ghost j: J.Json, ghost s: set<Container>) returns (copied: Container)
    requires Depicts(Box(source), j, s)
    ensures fresh(copied) && (copied.isObject <==> j.Obj?) && Shaped(ContentsOf(copied), j)
  {
    if source.isObject { copied := new Container.Dict(); } else { copied := new Container.List(|source.items|); }
  }

  lemma GrownTasks(work: seq<Task>, todo: seq<J.Json>, s: set<Container>, plan: Plan, c: Container, j: J.Json)
    requires TasksOk(work, todo, s, plan) && c !in plan
    ensures TasksOk(work, todo, s, plan[c := j])
  {
    forall n | 0 <= n < |work| ensures TaskOk(work[n], todo[n], s, plan[c := j]) {
      assert TaskOk(work[n], todo[n], s, plan);
    }
  }

  lemma StillPending(work: seq<Task>, more: seq<Task>)
    requires work <= more
    ensures forall c, slot :: Pending(work, c, slot) ==> Pending(more, c, slot)
  {
    forall c, slot | Pending(work, c, slot) ensures Pending(more, c, slot) {
      var n :| 0 <= n < |work| && work[n].parent == c && work[n].slot == slot;
      assert more[n] == work[n];
    }
  }

  /**
   `_copy_json_tree`: the copy stands for the same value and is made of new
   containers only, so it shares none with the source or with any earlier copy.
   */
  method CopyTree(value: Value, ghost j: J.Json, ghost s: set<Container>) returns (copy: Value, ghost made: set<Container>)
    requires Depicts(value, j, s)
    ensures Depicts(copy, j, made) && fresh(made)
    ensures value.Scalar? ==> copy == value
  {
    if value.Scalar? { return value, {}; }
    var root := NewLike(value.c, j, s);
    ghost var plan: Plan := map[root := j];
    var work: seq<Task> := [];
    ghost var todo: seq<J.Json> := [];
    work, todo := PushChildren([], [], value.c, root, j, s, plan);
    while work != []
      invariant Copying(work, todo, s, plan) && fresh(plan.Keys) && root in plan && plan[root] == j
      decreases Remaining(todo)
    {
      var t := work[|work| - 1];
      if t.node.Scalar? {
        work, todo := CopyScalar(work, todo, s, plan);
      } else {
        work, todo, plan := CopyContainer(work, todo, s, plan);
      }
    }
    copy, made := Box(root), plan.Keys;
    FinishedDepicts(copy, j, plan);
  }

  // ---------------------------------------------------------------------
  // Records
  // ---------------------------------------------------------------------

  /** A validated record: its own copy of the payload, the canonical text and its hash. */
  class HashBound {
    const family: Text
    const data: Container
    const canonical: Text
    const sha: Text
    ghost const value: J.Json
    ghost const owned: set<Container>

    /** The hash is that of the canonical text of what the payload stands for now. */
    ghost predicate Valid(hash: Text -> Text)
      reads owned
    {
      Depicts(Box(data), value, owned) && C.CanonicalText(value) == C.Ok(canonical) && sha == hash(canonical)
    }

    /** The constructor copies the payload it is given; json is that payload read as a value. */
    constructor (hash: Text -> Text, schema: Text, payload: Container, json: J.Json, ghost s: set<Container>)
      requires Depicts(Box(payload), json, s) && C.CanonicalText(json).Ok?
      ensures Valid(hash) && value == json && family == schema
      ensures fresh(owned)
    {
      var copy, made := CopyTree(Box(payload), json, s);
      var text := C.CanonicalBytes(json);
      family := schema;
      data := copy.c;
      canonical := text.text;
      sha := hash(text.text);
      value := json;
      owned := made;
    }

    /** The accessor hands out a new copy each time, sharing nothing with the record. */
    method Data(hash: Text -> Text) returns (copy: Container, ghost made: set<Container>)
      requires Valid(hash)
      ensures Valid(hash) && Depicts(Box(copy), value, made) && fresh(made) && made !! owned
    {
      var v;
      v, made := CopyTree(Box(data), value, owned);
      copy := v.c;
    }
  }

  /**
   Whatever anyone does to containers outside the record - the source of its
   payload, copies it has handed out - it stays bound to its hash.
   */
  twostate lemma StaysBound(r: HashBound, hash: Text -> Text)
    requires old(r.Valid(hash)) && forall c :: c in r.owned ==> unchanged(c)
    ensures r.Valid(hash)
  {}
}

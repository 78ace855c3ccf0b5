/**
 * The priority scheduler: one heap of waiting requests per model group, kept in a keyed cache.
 * An operation runs from its read of the queue to its write without another in between.
 */
module Scheduler {
  import opened Text
  import Sorting
  import Heap

  datatype Item = Item(priority: int, id: string)

  /** The order of `(priority, request_id)` pairs: lower numbers first, ties by request id. */
  predicate Le(a: Item, b: Item)
  {
    a.priority < b.priority || (a.priority == b.priority && StrLe(a.id, b.id))
  }

  lemma LeIsOrder()
    ensures Sorting.Preorder(Le)
    ensures forall a, b :: Le(a, b) && Le(b, a) ==> a == b
  {
    forall a, b ensures Le(a, b) || Le(b, a) {
      StrLeTotal(a.id, b.id);
    }
    forall a, b, c | Le(a, b) && Le(b, c) ensures Le(a, c) {
      if a.priority == b.priority == c.priority {
        StrLeTransitive(a.id, b.id, c.id);
      }
    }
    forall a, b | Le(a, b) && Le(b, a) ensures a == b {
      StrLeAntisymmetric(a.id, b.id);
    }
  }

  /** What a cache may hold under a key; only lists are queues. */
  datatype Value = QueueList(items: seq<Item>) | Other

  type Cache = map<string, Value>

  function Key(model: string): string { "scheduler:queue" + ":" + model }

  lemma KeyInjective(a: string, b: string)
    requires Key(a) == Key(b)
    ensures a == b
  {
    var n := |"scheduler:queue" + ":"|;
    assert Key(a)[n..] == a && Key(b)[n..] == b;
  }

  function QueueOf(cache: Cache, model: string): seq<Item>
  {
    if Key(model) in cache && cache[Key(model)].QueueList? then cache[Key(model)].items else []
  }

  ghost function Contents(cache: Cache, model: string): multiset<Item> { multiset(QueueOf(cache, model)) }

  ghost predicate Valid(cache: Cache) { forall m :: Heap.IsHeap(Le, QueueOf(cache, m)) }

  ghost predicate OthersSame(before: Cache, after: Cache, model: string)
  {
    forall k :: k != Key(model) ==> (k in after <==> k in before) && (k in before ==> after[k] == before[k])
  }

  ghost predicate IsLeast(x: Item, items: multiset<Item>) { x in items && forall y :: y in items ==> Le(x, y) }

  datatype Answer = Yes | No | Misconfigured

  /** What any operation does to the waiting requests of a model group. */
  ghost predicate Queued(before: Cache, after: Cache, model: string, items: multiset<Item>)
  {
    OthersSame(before, after, model) && Contents(after, model) == items
  }

  lemma SaveKeepsOthers(cache: Cache, model: string, queue: seq<Item>)
    requires Valid(cache) && Heap.IsHeap(Le, queue)
    ensures Valid(cache[Key(model) := QueueList(queue)])
    ensures Queued(cache, cache[Key(model) := QueueList(queue)], model, multiset(queue))
  {
    var after := cache[Key(model) := QueueList(queue)];
    forall m ensures Heap.IsHeap(Le, QueueOf(after, m)) {
      if m != model {
        if Key(m) == Key(model) {
          KeyInjective(m, model);
        }
        assert QueueOf(after, m) == QueueOf(cache, m);
      }
    }
  }

  lemma TopIsLeast(queue: seq<Item>)
    requires Heap.IsHeap(Le, queue) && queue != []
    ensures IsLeast(queue[0], multiset(queue))
  {
    LeIsOrder();
    forall y | y in multiset(queue) ensures Le(queue[0], y) {
      var i :| 0 <= i < |queue| && queue[i] == y;
      Heap.RootIsLeast(Le, queue, i);
    }
  }

  lemma LeastIsUnique(x: Item, y: Item, items: multiset<Item>)
    requires IsLeast(x, items) && IsLeast(y, items)
    ensures x == y
  {
    LeIsOrder();
  }

  /** The waiting requests that do not carry this id. */
  ghost function Without(items: multiset<Item>, id: string): (rest: multiset<Item>)
    ensures forall x :: rest[x] == if x.id == id then 0 else items[x]
    decreases |items|
  {
    if exists x :: x in items && x.id == id then
      var x :| x in items && x.id == id;
      assert items == items[x := 0] + multiset{x}[x := items[x]];
      Without(items[x := 0], id)
    else items
  }

  function Keep(queue: seq<Item>, id: string): (kept: seq<Item>)
    ensures forall x :: multiset(kept)[x] == if x.id == id then 0 else multiset(queue)[x]
  {
    if queue == [] then []
    else
      assert queue == [queue[0]] + queue[1..];
      (if queue[0].id != id then [queue[0]] else []) + Keep(queue[1..], id)
  }

  /** The front of the queue belongs to this request. */
  ghost predicate AtFront(items: multiset<Item>, id: string) { exists x :: IsLeast(x, items) && x.id == id }

  datatype Op =
    | Add(model: string, item: Item)
    | Admit(model: string, item: Item)     // a poll that took the front of the queue
    | Remove(model: string, id: string)
    | Look                                 // a peek, or a poll that changed nothing

  /** The effect of an operation on the cache. */
  ghost predicate Performed(before: Cache, op: Op, after: Cache)
  {
    match op
    case Add(m, item) => Queued(before, after, m, Contents(before, m) + multiset{item})
    case Admit(m, item) => IsLeast(item, Contents(before, m)) && Queued(before, after, m, Contents(before, m) - multiset{item})
    case Remove(m, id) => Queued(before, after, m, Without(Contents(before, m), id))
    case Look => after == before
  }

  /** What a caller may ask for. */
  datatype Command =
    | AddRequest(model: string, item: Item)
    | Poll(id: string, model: string, healthy: nat)
    | Peek(id: string, model: string)
    | RemoveRequest(id: string, model: string)

  /** The operation that a command comes down to, in the state it finds. */
  ghost predicate Becomes(before: Cache, command: Command, op: Op)
  {
    match command
    case AddRequest(m, item) => op == Add(m, item)
    case RemoveRequest(id, m) => op == Remove(m, id)
    case Peek(_, _) => op == Look
    case Poll(id, m, healthy) =>
      if healthy == 0 && AtFront(Contents(before, m), id) then op.Admit? && op.model == m && op.item.id == id else op == Look
  }

  /** The answer that a command gets in the state it finds; adding and removing are always accepted. */
  ghost function AnswerTo(before: Cache, command: Command): Answer
  {
    match command
    case Poll(id, m, healthy) =>
      if Contents(before, m) == multiset{} then Misconfigured
      else if healthy > 0 || AtFront(Contents(before, m), id) then Yes
      else No
    case Peek(id, m) =>
      if Contents(before, m) == multiset{} then Misconfigured else if AtFront(Contents(before, m), id) then Yes else No
    case _ => Yes
  }

  class Scheduler {
    var cache: Cache

    constructor ()
      ensures Valid(cache) && forall m :: Contents(cache, m) == multiset{}
    {
      cache := map[];
    }

    method AddRequest(model: string, item: Item)
      requires Valid(cache)
      modifies this
      ensures Valid(cache) && Performed(old(cache), Add(model, item), cache)
    {
      LeIsOrder();
      var queue := QueueOf(cache, model);
      queue := Heap.Push(Le, queue, item);
      SaveKeepsOthers(cache, model, queue);
      cache := cache[Key(model) := QueueList(queue)];
    }

    /** Admission: with no healthy deployment only the front of the queue is admitted, and leaves it. */
    method Poll(id: string, model: string, healthy: nat) returns (answer: Answer)
      requires Valid(cache)
      modifies this
      ensures Valid(cache)
      ensures answer.Misconfigured? <==> Contents(old(cache), model) == multiset{}
      ensures answer.Yes? <==>
              (Contents(old(cache), model) != multiset{} && (healthy > 0 || AtFront(Contents(old(cache), model), id)))
      ensures answer.Yes? && healthy == 0 ==> exists x: Item :: x.id == id && Performed(old(cache), Admit(model, x), cache)
      ensures !(answer.Yes? && healthy == 0) ==> cache == old(cache)
    {
      var queue := QueueOf(cache, model);
      if queue == [] {
        return Misconfigured;
      }
      assert queue[0] in multiset(queue);
      TopIsLeast(queue);
      if healthy > 0 {
        return Yes;
      }
      if queue[0].id != id {
        assert !AtFront(multiset(queue), id) by {
          if x :| IsLeast(x, multiset(queue)) && x.id == id {
            LeastIsUnique(x, queue[0], multiset(queue));
          }
        }
        return No;
      }
      LeIsOrder();
      ghost var items := multiset(queue);
      var item;
      item, queue := Heap.Pop(Le, queue);
      assert multiset(queue) == items - multiset{item};
      SaveKeepsOthers(cache, model, queue);
      assert Performed(cache, Admit(model, item), cache[Key(model) := QueueList(queue)]);
      cache := cache[Key(model) := QueueList(queue)];
      return Yes;
    }

    /** Whether the front of the queue belongs to this request, without taking it. */
    method Peek(id: string, model: string) returns (answer: Answer)
      requires Valid(cache)
      ensures answer.Misconfigured? <==> Contents(cache, model) == multiset{}
      ensures answer.Yes? <==> Contents(cache, model) != multiset{} && AtFront(Contents(cache, model), id)
    {
      var queue := QueueOf(cache, model);
      if queue == [] {
        return Misconfigured;
      }
      assert queue[0] in multiset(queue);
      TopIsLeast(queue);
      if queue[0].id == id {
        return Yes;
      }
      assert !AtFront(multiset(queue), id) by {
        if x :| IsLeast(x, multiset(queue)) && x.id == id {
          LeastIsUnique(x, queue[0], multiset(queue));
        }
      }
      return No;
    }

    method RemoveRequest(id: string, model: string)
      requires Valid(cache)
      modifies this
      ensures Valid(cache) && Performed(old(cache), Remove(model, id), cache)
    {
      LeIsOrder();
      var queue := Keep(QueueOf(cache, model), id);
      assert multiset(queue) == Without(Contents(cache, model), id);
      queue := Heap.Heapify(Le, queue);
      SaveKeepsOthers(cache, model, queue);
      cache := cache[Key(model) := QueueList(queue)];
    }

    /** One command, by calling the operation it names. */
    method Perform(command: Command) returns (answer: Answer, ghost op: Op)
      requires Valid(cache)
      modifies this
      ensures Valid(cache) && Performed(old(cache), op, cache)
      ensures Becomes(old(cache), command, op) && answer == AnswerTo(old(cache), command)
    {
      answer := Yes;
      match command
      case AddRequest(model, item) =>
        AddRequest(model, item);
        op := Add(model, item);
      case RemoveRequest(id, model) =>
        RemoveRequest(id, model);
        op := Remove(model, id);
      case Peek(id, model) =>
        answer := Peek(id, model);
        op := Look;
      case Poll(id, model, healthy) =>
        ghost var before := cache;
        answer := Poll(id, model, healthy);
        EmptyHasNoFront(Contents(before, model), id);
        if answer.Yes? && healthy == 0 {
          ghost var x: Item :| x.id == id && Performed(before, Admit(model, x), cache);
          op := Admit(model, x);
        } else {
          op := Look;
        }
    }

    /**
     * Any list of commands, played one after the other: every queue ends as a heap of exactly
     * the requests added to it less those admitted and those removed, each command is answered
     * as the requests then waiting demand, and the operations make up a run.
     */
    method Play(commands: seq<Command>) returns (answers: seq<Answer>, ghost ops: seq<Op>, ghost caches: seq<Cache>)
      requires Valid(cache)
      modifies this
      ensures Valid(cache) && forall m :: Contents(cache, m) == Expected(Contents(old(cache), m), ops, m)
      ensures |answers| == |ops| == |commands| && IsRun(caches, ops) && caches[0] == old(cache) && caches[|ops|] == cache
      ensures forall k :: 0 <= k < |commands| ==> Answered(caches, commands, ops, answers, k)
    {
      answers, ops, caches := [], [], [cache];
      for i := 0 to |commands|
        invariant Valid(cache) && |answers| == |ops| == i && IsRun(caches, ops)
        invariant caches[0] == old(cache) && caches[i] == cache
        invariant forall k :: 0 <= k < i ==> Answered(caches, commands, ops, answers, k)
      {
        ghost var op;
        var answer;
        answer, op := Perform(commands[i]);
        RunGrows(caches, ops, op, cache);
        AnswersGrow(caches, commands, ops, answers, i, cache, op, answer);
        answers, ops, caches := answers + [answer], ops + [op], caches + [cache];
      }
      EndOfRun(caches, ops);
    }
  }

  /** The k-th command was answered, and carried out, as the state it found demands. */
  ghost predicate Answered(caches: seq<Cache>, commands: seq<Command>, ops: seq<Op>, answers: seq<Answer>, k: nat)
  {
    && k < |caches| && k < |commands| && k < |ops| && k < |answers|
    && Becomes(caches[k], commands[k], ops[k]) && answers[k] == AnswerTo(caches[k], commands[k])
  }

  lemma AnswersGrow(
    caches: seq<Cache>, commands: seq<Command>, ops: seq<Op>, answers: seq<Answer>, i: nat, next: Cache, op: Op, answer: Answer)
    requires |caches| == i + 1 && |ops| == |answers| == i < |commands|
    requires forall k :: 0 <= k < i ==> Answered(caches, commands, ops, answers, k)
    requires Becomes(caches[i], commands[i], op) && answer == AnswerTo(caches[i], commands[i])
    ensures forall k :: 0 <= k <= i ==> Answered(caches + [next], commands, ops + [op], answers + [answer], k)
  {
    forall k | 0 <= k <= i ensures Answered(caches + [next], commands, ops + [op], answers + [answer], k) {
      assert k < i ==> Answered(caches, commands, ops, answers, k);
    }
  }

  lemma EndOfRun(caches: seq<Cache>, ops: seq<Op>)
    requires IsRun(caches, ops)
    ensures forall m :: Contents(caches[|ops|], m) == Expected(Contents(caches[0], m), ops, m)
  {
    forall m ensures Contents(caches[|ops|], m) == Expected(Contents(caches[0], m), ops, m) {
      RunConserves(caches, ops, |ops|, m);
      assert ops[..|ops|] == ops;
    }
  }

  // ---------------------------------------------------------- whole runs

  lemma EmptyHasNoFront(items: multiset<Item>, id: string)
    ensures AtFront(items, id) ==> items != multiset{}
  {
  }

  ghost predicate PerformedAt(caches: seq<Cache>, ops: seq<Op>, k: nat)
    requires k < |ops| && |caches| == |ops| + 1
  {
    Performed(caches[k], ops[k], caches[k + 1])
  }

  ghost predicate IsRun(caches: seq<Cache>, ops: seq<Op>)
  {
    |caches| == |ops| + 1 && forall k :: 0 <= k < |ops| ==> PerformedAt(caches, ops, k)
  }

  /** The waiting requests of a model group after some operations: what was added, less what was admitted or removed. */
  ghost function Expected(start: multiset<Item>, ops: seq<Op>, model: string): multiset<Item>
  {
    if ops == [] then start
    else
      var prior := Expected(start, ops[..|ops| - 1], model);
      match ops[|ops| - 1]
      case Add(m, item) => if m == model then prior + multiset{item} else prior
      case Admit(m, item) => if m == model then prior - multiset{item} else prior
      case Remove(m, id) => if m == model then Without(prior, id) else prior
      case Look => prior
  }

  lemma OtherModel(before: Cache, after: Cache, changed: string, model: string)
    requires OthersSame(before, after, changed) && model != changed
    ensures QueueOf(after, model) == QueueOf(before, model)
  {
    if Key(model) == Key(changed) {
      KeyInjective(model, changed);
    }
  }

  lemma StepExpected(before: Cache, op: Op, after: Cache, model: string, start: multiset<Item>, ops: seq<Op>)
    requires Performed(before, op, after) && Contents(before, model) == Expected(start, ops, model)
    ensures Contents(after, model) == Expected(start, ops + [op], model)
  {
    assert (ops + [op])[..|ops|] == ops;
    if !op.Look? && op.model != model {
      OtherModel(before, after, op.model, model);
    }
  }

  lemma RunGrows(caches: seq<Cache>, ops: seq<Op>, op: Op, next: Cache)
    requires IsRun(caches, ops) && Performed(caches[|ops|], op, next)
    ensures IsRun(caches + [next], ops + [op])
  {
    var moreCaches, moreOps := caches + [next], ops + [op];
    forall k | 0 <= k < |moreOps| ensures PerformedAt(moreCaches, moreOps, k) {
      assert k < |ops| ==> PerformedAt(caches, ops, k);
    }
  }

  /** Over every run a model's queue holds the requests added to it, less those admitted and those removed. */
  lemma {:induction false} RunConserves(caches: seq<Cache>, ops: seq<Op>, k: nat, model: string)
    requires IsRun(caches, ops) && k <= |ops|
    ensures Contents(caches[k], model) == Expected(Contents(caches[0], model), ops[..k], model)
  {
    if k > 0 {
      RunConserves(caches, ops, k - 1, model);
      assert PerformedAt(caches, ops, k - 1);
      assert ops[..k] == ops[..k - 1] + [ops[k - 1]];
      StepExpected(caches[k - 1], ops[k - 1], caches[k], model, Contents(caches[0], model), ops[..k - 1]);
    }
  }

  /** Nothing is added to or removed from the model's queue between steps i and j, only admitted. */
  ghost predicate OnlyAdmits(ops: seq<Op>, i: nat, j: nat, model: string)
  {
    forall k :: i <= k < j && k < |ops| && !ops[k].Look? && ops[k].model == model ==> ops[k].Admit?
  }

  lemma {:induction false} OnlyShrinks(caches: seq<Cache>, ops: seq<Op>, i: nat, j: nat, model: string)
    requires IsRun(caches, ops) && i <= j <= |ops| && OnlyAdmits(ops, i, j, model)
    ensures Contents(caches[j], model) <= Contents(caches[i], model)
    decreases j - i
  {
    if i < j {
      OnlyShrinks(caches, ops, i, j - 1, model);
      assert PerformedAt(caches, ops, j - 1);
      if !ops[j - 1].Look? && ops[j - 1].model != model {
        OtherModel(caches[j - 1], caches[j], ops[j - 1].model, model);
      }
    }
  }

  /** While requests are only admitted, they are admitted in the order of priority and request id. */
  lemma DrainSorted(caches: seq<Cache>, ops: seq<Op>, i: nat, j: nat, model: string)
    requires IsRun(caches, ops) && i < j < |ops| && OnlyAdmits(ops, i, j, model)
    requires ops[i].Admit? && ops[j].Admit? && ops[i].model == ops[j].model == model
    ensures Le(ops[i].item, ops[j].item)
    ensures ops[i].item.priority <= ops[j].item.priority
    ensures ops[i].item.priority == ops[j].item.priority ==> ops[i].item.id == ops[j].item.id || Before(ops[i].item.id, ops[j].item.id)
  {
    StrLeExact(ops[i].item.id, ops[j].item.id);
    OnlyShrinks(caches, ops, i, j, model);
    assert PerformedAt(caches, ops, i) && PerformedAt(caches, ops, j);
  }

  ghost function Admitted(ops: seq<Op>): (items: seq<Item>)
    requires forall k :: 0 <= k < |ops| ==> ops[k].Admit?
    ensures |items| == |ops|
  {
    seq(|ops|, k requires 0 <= k < |ops| => ops[k].item)
  }

  lemma MovedOver(taken: seq<Item>, left: multiset<Item>, item: Item, whole: multiset<Item>)
    requires item in left && multiset(taken) + left == whole
    ensures multiset(taken + [item]) + (left - multiset{item}) == whole
  {
    assert left == (left - multiset{item}) + multiset{item};
  }

  lemma AdmittedMore(ops: seq<Op>, k: nat)
    requires 0 < k <= |ops| && forall i :: 0 <= i < |ops| ==> ops[i].Admit?
    ensures Admitted(ops[..k]) == Admitted(ops[..k - 1]) + [ops[k - 1].item]
  {
  }

  lemma AdmitMoves(before: Cache, op: Op, after: Cache, taken: seq<Item>, whole: multiset<Item>)
    requires op.Admit? && Performed(before, op, after) && multiset(taken) + Contents(before, op.model) == whole
    ensures multiset(taken + [op.item]) + Contents(after, op.model) == whole
  {
    MovedOver(taken, Contents(before, op.model), op.item, whole);
  }

  lemma {:induction false} DrainConserves(caches: seq<Cache>, ops: seq<Op>, k: nat, model: string)
    requires IsRun(caches, ops) && k <= |ops| && forall i :: 0 <= i < |ops| ==> ops[i].Admit? && ops[i].model == model
    ensures multiset(Admitted(ops[..k])) + Contents(caches[k], model) == Contents(caches[0], model)
  {
    if k > 0 {
      DrainConserves(caches, ops, k - 1, model);
      assert PerformedAt(caches, ops, k - 1);
      AdmittedMore(ops, k);
      AdmitMoves(caches[k - 1], ops[k - 1], caches[k], Admitted(ops[..k - 1]), Contents(caches[0], model));
    } else {
      assert Admitted(ops[..0]) == [];
    }
  }

  /** A full drain empties the queue and admits its requests in sorted order. */
  lemma DrainIsSort(caches: seq<Cache>, ops: seq<Op>, model: string)
    requires IsRun(caches, ops) && forall i :: 0 <= i < |ops| ==> ops[i].Admit? && ops[i].model == model
    requires |ops| == |QueueOf(caches[0], model)|
    ensures Contents(caches[|ops|], model) == multiset{}
    ensures multiset(Admitted(ops)) == Contents(caches[0], model) && Sorting.SortedBy(Admitted(ops), Le)
  {
    DrainConserves(caches, ops, |ops|, model);
    assert ops[..|ops|] == ops;
    var taken, left := multiset(Admitted(ops)), Contents(caches[|ops|], model);
    assert |taken| == |Admitted(ops)| && |Contents(caches[0], model)| == |QueueOf(caches[0], model)|;
    assert |taken + left| == |taken| + |left|;
    assert left == multiset{};
    forall i, j | 0 <= i < j < |ops| ensures Le(Admitted(ops)[i], Admitted(ops)[j]) {
      DrainSorted(caches, ops, i, j, model);
    }
  }
}

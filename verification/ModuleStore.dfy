/**
 What the module list means: entries newest first, each with the topics it publishes.
 Lookups, deletions and topic updates go to the newest entry of an id, so that the
 entries of one id form a stack.
 */
module ModuleStore {
  import opened Seqs

  datatype Entry = Entry(id: int, name: string, topics: seq<string>)

  type Store = seq<Entry>

  /** Where the newest entry of `id` is; the length of the list if there is none. */
  function Find(s: Store, id: int): (k: nat)
    ensures k <= |s| && (k < |s| ==> s[k].id == id)
    ensures forall i | 0 <= i < k :: s[i].id != id
  {
    if s == [] || s[0].id == id then 0 else 1 + Find(s[1..], id)
  }

  function FindTopic(topics: seq<string>, topic: string): (k: nat)
    ensures k <= |topics| && (k < |topics| ==> topics[k] == topic)
    ensures topic !in topics[..k]
  {
    if topics == [] || topics[0] == topic then 0 else 1 + FindTopic(topics[1..], topic)
  }

  datatype Op =
    | Add(id: int, name: string) | Delete(id: int)
    | AddTopic(id: int, topic: string) | DropTopic(id: int, topic: string)

  /** The newest entry of the id, with these topics instead. */
  function WithTopics(s: Store, k: nat, topics: seq<string>): (r: Store)
    requires k < |s|
  {
    s[k := s[k].(topics := topics)]
  }

  function Do(s: Store, op: Op): (r: Store) {
    match op
    case Add(id, name) => [Entry(id, name, [])] + s
    case Delete(id) =>
      var k := Find(s, id);
      if k == |s| then s else Without(s, k)
    case AddTopic(id, topic) =>
      var k := Find(s, id);
      if k == |s| || topic in s[k].topics then s else WithTopics(s, k, [topic] + s[k].topics)
    case DropTopic(id, topic) =>
      var k := Find(s, id);
      if k == |s| || topic !in s[k].topics then s
      else WithTopics(s, k, Without(s[k].topics, FindTopic(s[k].topics, topic)))
  }

  /** What the call returns. */
  function Returned(s: Store, op: Op): (ret: int) {
    if op.Add? then 0
    else
      var k := Find(s, op.id);
      if k == |s| then -1
      else
        match op
        case Delete(_) => 0
        case AddTopic(_, topic) => if topic in s[k].topics then 0 else 1
        case DropTopic(_, topic) => if topic in s[k].topics then 0 else -1
  }

  function Run(s: Store, ops: seq<Op>): (r: Store)
    decreases |ops|
  {
    if ops == [] then s else Run(Do(s, ops[0]), ops[1..])
  }

  // ---- A stack per id ----

  /** The entries of `id`, newest first. */
  function Stack(s: Store, id: int): (r: seq<Entry>)
  {
    if s == [] then []
    else (if s[0].id == id then [s[0]] else []) + Stack(s[1..], id)
  }

  /** What an operation does to the stack of its own id. */
  function StackDo(stack: seq<Entry>, op: Op): (r: seq<Entry>) {
    match op
    case Add(id, name) => [Entry(id, name, [])] + stack
    case Delete(_) => if stack == [] then [] else stack[1..]
    case AddTopic(_, topic) =>
      if stack == [] || topic in stack[0].topics then stack
      else [stack[0].(topics := [topic] + stack[0].topics)] + stack[1..]
    case DropTopic(_, topic) =>
      if stack == [] || topic !in stack[0].topics then stack
      else [stack[0].(topics := Without(stack[0].topics, FindTopic(stack[0].topics, topic)))] + stack[1..]
  }

  function StackRun(stack: seq<Entry>, ops: seq<Op>, id: int): (r: seq<Entry>)
    decreases |ops|
  {
    if ops == [] then stack
    else StackRun(if ops[0].id == id then StackDo(stack, ops[0]) else stack, ops[1..], id)
  }

  lemma {:induction false} StackConcat(s: Store, t: Store, id: int)
    ensures Stack(s + t, id) == Stack(s, id) + Stack(t, id)
    decreases |s|
  {
    if s == [] {
      assert s + t == t;
    } else {
      StackConcat(s[1..], t, id);
      ConsAppend(s, t);
      Associates(if s[0].id == id then [s[0]] else [], Stack(s[1..], id), Stack(t, id));
    }
  }

  lemma {:induction false} NoStackBefore(s: Store, id: int)
    requires forall i | 0 <= i < |s| :: s[i].id != id
    ensures Stack(s, id) == []
  {
    if s != [] {
      NoStackBefore(s[1..], id);
    }
  }

  /** The entry found is the top of the stack. */
  lemma FindsTop(s: Store, id: int)
    ensures Find(s, id) == |s| <==> Stack(s, id) == []
    ensures var k := Find(s, id); k < |s| ==> Stack(s, id) == [s[k]] + Stack(s[k + 1..], id)
  {
    var k := Find(s, id);
    NoStackBefore(s[..k], id);
    if k < |s| {
      StackAround(s, k, id);
    } else {
      assert s[..k] == s;
    }
  }

  lemma StackAround(s: Store, k: nat, id: int)
    requires k < |s|
    ensures Stack(s, id) == Stack(s[..k], id) + (if s[k].id == id then [s[k]] else []) + Stack(s[k + 1..], id)
  {
    assert s == s[..k] + s[k..] && s[k..][1..] == s[k + 1..];
    StackConcat(s[..k], s[k..], id);
  }

  lemma StackOfDeleted(s: Store, k: nat, id: int)
    requires k < |s| && k == Find(s, s[k].id)
    ensures s[k].id == id ==> Stack(s, id) == [s[k]] + Stack(Without(s, k), id)
    ensures s[k].id != id ==> Stack(Without(s, k), id) == Stack(s, id)
  {
    StackAround(s, k, id);
    StackConcat(s[..k], s[k + 1..], id);
    if s[k].id == id {
      NoStackBefore(s[..k], id);
    }
  }

  lemma StackOfUpdated(s: Store, k: nat, topics: seq<string>, id: int)
    requires k < |s| && k == Find(s, s[k].id)
    ensures s[k].id == id ==>
              && Stack(s, id) == [s[k]] + Stack(s[k + 1..], id)
              && Stack(WithTopics(s, k, topics), id) == [s[k].(topics := topics)] + Stack(s[k + 1..], id)
    ensures s[k].id != id ==> Stack(WithTopics(s, k, topics), id) == Stack(s, id)
  {
    var t := WithTopics(s, k, topics);
    StackAround(s, k, id);
    StackAround(t, k, id);
    assert t[..k] == s[..k] && t[k + 1..] == s[k + 1..];
    if s[k].id == id {
      NoStackBefore(s[..k], id);
    }
  }

  /** Each operation works on the stack of its id, and on no other. */
  lemma DoRefinesStack(s: Store, op: Op, id: int)
    ensures Stack(Do(s, op), id) == if op.id == id then StackDo(Stack(s, id), op) else Stack(s, id)
  {
    if op.Add? {
      ConsAppend(Do(s, op), []);
    } else {
      var k := Find(s, op.id);
      FindsTop(s, op.id);
      if k < |s| {
        match op {
          case Delete(_) => StackOfDeleted(s, k, id);
          case AddTopic(_, topic) => StackOfUpdated(s, k, [topic] + s[k].topics, id);
          case DropTopic(_, topic) =>
            if topic in s[k].topics {
              StackOfUpdated(s, k, Without(s[k].topics, FindTopic(s[k].topics, topic)), id);
            }
        }
      }
    }
  }

  /** Every run of operations refines a stack per id. */
  lemma {:induction false} RunRefinesStack(s: Store, ops: seq<Op>, id: int)
    ensures Stack(Run(s, ops), id) == StackRun(Stack(s, id), ops, id)
    decreases |ops|
  {
    if ops != [] {
      DoRefinesStack(s, ops[0], id);
      RunRefinesStack(Do(s, ops[0]), ops[1..], id);
    }
  }

  /** The entries of all other ids, newest first. */
  function Others(s: Store, id: int): (r: seq<Entry>) {
    if s == [] then []
    else (if s[0].id != id then [s[0]] else []) + Others(s[1..], id)
  }

  lemma {:induction false} OthersConcat(s: Store, t: Store, id: int)
    ensures Others(s + t, id) == Others(s, id) + Others(t, id)
    decreases |s|
  {
    if s == [] {
      assert s + t == t;
    } else {
      OthersConcat(s[1..], t, id);
      ConsAppend(s, t);
      Associates(if s[0].id != id then [s[0]] else [], Others(s[1..], id), Others(t, id));
    }
  }

  lemma OthersAround(s: Store, k: nat, id: int)
    requires k < |s| && s[k].id == id
    ensures Others(s, id) == Others(s[..k], id) + Others(s[k + 1..], id)
  {
    assert s == s[..k] + s[k..] && s[k..][1..] == s[k + 1..];
    OthersConcat(s[..k], s[k..], id);
  }

  /** An operation leaves the entries of all other ids as they are, in their order. */
  lemma OthersKeepOrder(s: Store, op: Op)
    ensures Others(Do(s, op), op.id) == Others(s, op.id)
  {
    var t := Do(s, op);
    if op.Add? {
      assert t[1..] == s;
    } else {
      var k := Find(s, op.id);
      if k < |s| {
        OthersAround(s, k, op.id);
        if op.Delete? {
          OthersConcat(s[..k], s[k + 1..], op.id);
        } else {
          assert t[..k] == s[..k] && t[k + 1..] == s[k + 1..];
          OthersAround(t, k, op.id);
        }
      }
    }
  }

  // ---- Topics are announced once ----

  ghost predicate NoTopicTwice(s: Store) {
    forall i | 0 <= i < |s| :: Distinct(s[i].topics)
  }

  lemma NoTopicTwiceStep(s: Store, op: Op)
    requires NoTopicTwice(s)
    ensures NoTopicTwice(Do(s, op))
  {
  }

  function Held(s: Store): (n: nat) {
    if s == [] then 0 else |s[0].topics| + Held(s[1..])
  }

  /** The topics an operation throws away: all those of a deleted module, or one. */
  function Discards(s: Store, op: Op): (n: nat) {
    var k := Find(s, op.id);
    if k == |s| then 0
    else if op.Delete? then |s[k].topics|
    else if op.DropTopic? && op.topic in s[k].topics then 1
    else 0
  }

  lemma {:induction false} HeldConcat(s: Store, t: Store)
    ensures Held(s + t) == Held(s) + Held(t)
    decreases |s|
  {
    if s == [] {
      assert s + t == t;
    } else {
      HeldConcat(s[1..], t);
      ConsAppend(s, t);
    }
  }

  lemma HeldAround(s: Store, k: nat)
    requires k < |s|
    ensures Held(s) == Held(s[..k]) + |s[k].topics| + Held(s[k + 1..])
  {
    assert s == s[..k] + s[k..] && s[k..][1..] == s[k + 1..];
    HeldConcat(s[..k], s[k..]);
  }

  lemma HeldWith(s: Store, k: nat, topics: seq<string>)
    requires k < |s|
    ensures Held(WithTopics(s, k, topics)) + |s[k].topics| == Held(s) + |topics|
  {
    var t := WithTopics(s, k, topics);
    assert t[..k] == s[..k] && t[k + 1..] == s[k + 1..];
    HeldAround(s, k);
    HeldAround(t, k);
  }

  lemma HeldWithout(s: Store, k: nat)
    requires k < |s|
    ensures Held(Without(s, k)) + |s[k].topics| == Held(s)
  {
    HeldAround(s, k);
    HeldConcat(s[..k], s[k + 1..]);
  }

  /** A topic is gained exactly when the call returns 1, and otherwise only discarded. */
  lemma TopicsConserved(s: Store, op: Op)
    ensures Held(Do(s, op)) + Discards(s, op) ==
            Held(s) + if op.AddTopic? && Returned(s, op) == 1 then 1 else 0
  {
    var k := Find(s, op.id);
    if op.Add? {
      assert Do(s, op)[1..] == s;
    } else if k < |s| {
      match op {
        case Delete(_) => HeldWithout(s, k);
        case AddTopic(_, topic) => HeldWith(s, k, [topic] + s[k].topics);
        case DropTopic(_, topic) =>
          if topic in s[k].topics {
            HeldWith(s, k, Without(s[k].topics, FindTopic(s[k].topics, topic)));
          }
      }
    }
  }
}

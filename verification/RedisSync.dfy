/**
  Several instances that share one Redis channel (`redis/redis.go`, `redisSubscriber` and the timer
  callback of `resolver/blocking_resolver.go`), as a transition system.
 */
module RedisSync {
  import opened BlockingStatus

  /** A published `EnabledMessage` with the id of its sender. */
  datatype Message = Message(sender: nat, enable: bool, timed: bool, groups: seq<string>)

  /**
    One instance: its status, the timer callbacks that have started but not yet run (stopping the
    timer no longer helps against these), the messages it is about to publish, and those it has yet to process.
   */
  datatype Node = Node(known: seq<string>, status: Status, started: nat, outbox: seq<Message>, inbox: seq<Message>)

  type Net = seq<Node>

  /** A step of the system. The first two are commands; the others happen on their own. */
  datatype Step =
    | CommandEnable(i: nat)
    | CommandDisable(i: nat, timed: bool, groups: seq<string>)
    | Publish(i: nat, k: nat)
    | Receive(i: nat)
    | Fire(i: nat)
    | Callback(i: nat)

  predicate IsCommand(step: Step) {
    step.CommandEnable? || step.CommandDisable?
  }

  predicate Enabled(net: Net, step: Step) {
    && step.i < |net|
    && match step
       case CommandEnable(i) => true
       case CommandDisable(i, timed, groups) => true
       case Publish(i, k) => k < |net[i].outbox|
       case Receive(i) => net[i].inbox != []
       case Fire(i) => net[i].status.armed
       case Callback(i) => net[i].started > 0
  }

  /** `EnableBlocking`: enable, then publish. */
  function EnableAndPublish(n: Node, i: nat): Node {
    n.(status := Enable(n.status), outbox := n.outbox + [Message(i, true, false, [])])
  }

  /** `DisableBlocking`: only a successful disable is published. */
  function DisableAndPublish(n: Node, i: nat, timed: bool, groups: seq<string>): Node {
    var (status, ok) := Disable(n.known, n.status, timed, groups);
    n.(status := status, outbox := n.outbox + if ok then [Message(i, false, timed, groups)] else [])
  }

  /** `processReceivedMessage` and `redisSubscriber`: own messages are skipped, errors are only logged. */
  function Process(n: Node, i: nat): Node
    requires n.inbox != []
  {
    var m, rest := n.inbox[0], n.inbox[1..];
    if m.sender == i then n.(inbox := rest)
    else if m.enable then n.(inbox := rest, status := Enable(n.status))
    else n.(inbox := rest, status := Disable(n.known, n.status, m.timed, m.groups).0)
  }

  function WithoutAt<T>(s: seq<T>, k: nat): seq<T>
    requires k < |s|
  {
    s[..k] + s[k + 1..]
  }

  /** Redis delivers a published message to every subscriber. */
  function Broadcast(net: Net, m: Message): Net {
    seq(|net|, j requires 0 <= j < |net| => net[j].(inbox := net[j].inbox + [m]))
  }

  function Next(net: Net, step: Step): (net': Net)
    requires Enabled(net, step)
    ensures |net'| == |net|
  {
    var n := net[step.i];
    match step
    case CommandEnable(i) => net[i := EnableAndPublish(n, i)]
    case CommandDisable(i, timed, groups) => net[i := DisableAndPublish(n, i, timed, groups)]
    case Publish(i, k) => Broadcast(net[i := n.(outbox := WithoutAt(n.outbox, k))], n.outbox[k])
    case Receive(i) => net[i := Process(n, i)]
    case Fire(i) => net[i := n.(status := n.status.(armed := false), started := n.started + 1)]
    case Callback(i) => net[i := EnableAndPublish(n, i).(started := n.started - 1)]
  }

  /** `steps` can be taken one after the other from `net`. */
  predicate CanRun(net: Net, steps: seq<Step>)
    decreases |steps|
  {
    steps == [] || (Enabled(net, steps[0]) && CanRun(Next(net, steps[0]), steps[1..]))
  }

  function Run(net: Net, steps: seq<Step>): (end: Net)
    requires CanRun(net, steps)
    ensures |end| == |net|
    decreases |steps|
  {
    if steps == [] then net else Run(Next(net, steps[0]), steps[1..])
  }

  // What the steps do, spelled out.

  /** The instances other than `i` are as they were. */
  predicate OthersKept(net: Net, net': Net, i: nat) {
    |net'| == |net| && forall j :: 0 <= j < |net| && j != i ==> net'[j] == net[j]
  }

  /** Instance `i` has blocking on and no timer, and is about to tell the others so, once. */
  predicate AnnouncesEnable(n: Node, n': Node, i: nat) {
    && n'.status.enabled && n'.status.disabledGroups == [] && !n'.status.armed
    && n'.outbox == n.outbox + [Message(i, true, false, [])] && n'.inbox == n.inbox && n'.known == n.known
  }

  /** A timer callback enables its instance and publishes that, like an enable command does. */
  lemma CallbackAnnounces(net: Net, i: nat)
    requires Enabled(net, Callback(i))
    ensures var net' := Next(net, Callback(i));
      OthersKept(net, net', i) && AnnouncesEnable(net[i], net'[i], i) && net'[i].started == net[i].started - 1
  {
  }

  lemma EnableAnnounces(net: Net, i: nat)
    requires Enabled(net, CommandEnable(i))
    ensures var net' := Next(net, CommandEnable(i));
      OthersKept(net, net', i) && AnnouncesEnable(net[i], net'[i], i) && net'[i].started == net[i].started
  {
  }

  /**
    A disable of known groups, or of all, sets exactly these, starts a timer if it has a duration, and is
    announced as it was given; any other one only stops the timer.
   */
  lemma DisableAnnounces(net: Net, i: nat, timed: bool, groups: seq<string>)
    requires Enabled(net, CommandDisable(i, timed, groups))
    ensures var net' := Next(net, CommandDisable(i, timed, groups));
      var n, n' := net[i], net'[i];
      && OthersKept(net, net', i) && n'.started == n.started && n'.inbox == n.inbox && n'.known == n.known
      && if forall g :: g in groups ==> g in n.known then
           && !n'.status.enabled && n'.status.armed == timed
           && n'.status.disabledGroups == (if groups == [] then n.known else groups)
           && n'.outbox == n.outbox + [Message(i, false, timed, groups)]
         else
           && n'.status.enabled == n.status.enabled && n'.status.disabledGroups == n.status.disabledGroups
           && !n'.status.armed && n'.outbox == n.outbox
  {
    assert net[i].outbox + [] == net[i].outbox;
  }

  /**
    A received message is taken off the inbox. Own ones do nothing; of foreign ones enables enable and
    disables of known groups disable, without a word to the others; unknown groups only stop the timer.
   */
  lemma ReceiveActs(net: Net, i: nat)
    requires Enabled(net, Receive(i))
    ensures var net' := Next(net, Receive(i));
      var n, n', m := net[i], net'[i], net[i].inbox[0];
      && OthersKept(net, net', i) && n'.started == n.started && n'.known == n.known
      && n'.outbox == n.outbox && n.inbox == [m] + n'.inbox
      && if m.sender == i then n'.status == n.status
         else if m.enable then n'.status.enabled && n'.status.disabledGroups == [] && !n'.status.armed
         else if forall g :: g in m.groups ==> g in n.known then
           && !n'.status.enabled && n'.status.armed == m.timed
           && n'.status.disabledGroups == (if m.groups == [] then n.known else m.groups)
         else
           && n'.status.enabled == n.status.enabled && n'.status.disabledGroups == n.status.disabledGroups
           && !n'.status.armed
  {
  }

  /** A published message leaves the outbox and is appended to every inbox, that of its sender included. */
  lemma PublishDelivers(net: Net, i: nat, k: nat, j: nat)
    requires Enabled(net, Publish(i, k)) && j < |net|
    ensures var net' := Next(net, Publish(i, k));
      && |net'| == |net| && net'[j].inbox == net[j].inbox + [net[i].outbox[k]]
      && net'[j].outbox == (if j == i then net[i].outbox[..k] + net[i].outbox[k + 1..] else net[j].outbox)
      && net'[j].status == net[j].status && net'[j].started == net[j].started && net'[j].known == net[j].known
  {
  }

  /** A timer that fires starts one callback. */
  lemma FireStarts(net: Net, i: nat)
    requires Enabled(net, Fire(i))
    ensures var net' := Next(net, Fire(i));
      && OthersKept(net, net', i) && net[i].status.armed
      && net'[i] == net[i].(status := net[i].status.(armed := false), started := net[i].started + 1)
  {
  }

  // Every run without commands ends.

  /** What a message or a timer can still cause in a system of `n` instances. */
  function Sent(m: Message, n: nat): nat {
    if m.enable then 1 else n + 4
  }

  function SentAll(ms: seq<Message>, n: nat): nat {
    if ms == [] then 0 else Sent(ms[0], n) + SentAll(ms[1..], n)
  }

  function Pending(ms: seq<Message>, n: nat): nat {
    if ms == [] then 0 else 1 + n * Sent(ms[0], n) + Pending(ms[1..], n)
  }

  function Load(node: Node, n: nat): nat {
    SentAll(node.inbox, n) + Pending(node.outbox, n) + node.started * (n + 2) + if node.status.armed then n + 3 else 0
  }

  function TotalLoad(net: Net, n: nat): nat {
    if net == [] then 0 else Load(net[0], n) + TotalLoad(net[1..], n)
  }

  function Measure(net: Net): nat {
    TotalLoad(net, |net|)
  }

  lemma {:induction false} SentConcat(a: seq<Message>, b: seq<Message>, n: nat)
    ensures SentAll(a + b, n) == SentAll(a, n) + SentAll(b, n)
  {
    if a == [] {
      assert a + b == b;
    } else {
      SentConcat(a[1..], b, n);
      assert (a + b)[1..] == a[1..] + b;
    }
  }

  lemma {:induction false} PendingConcat(a: seq<Message>, b: seq<Message>, n: nat)
    ensures Pending(a + b, n) == Pending(a, n) + Pending(b, n)
  {
    if a == [] {
      assert a + b == b;
    } else {
      PendingConcat(a[1..], b, n);
      assert (a + b)[1..] == a[1..] + b;
    }
  }

  lemma PendingWithout(s: seq<Message>, k: nat, n: nat)
    requires k < |s|
    ensures Pending(WithoutAt(s, k), n) == Pending(s, n) - 1 - n * Sent(s[k], n)
  {
    assert s == s[..k] + ([s[k]] + s[k + 1..]);
    PendingConcat(s[..k], [s[k]] + s[k + 1..], n);
    PendingConcat([s[k]], s[k + 1..], n);
    PendingConcat(s[..k], s[k + 1..], n);
    assert Pending([s[k]], n) == 1 + n * Sent(s[k], n);
  }

  lemma {:induction false} LoadUpdate(net: Net, n: nat, i: nat, x: Node)
    requires i < |net|
    ensures TotalLoad(net[i := x], n) == TotalLoad(net, n) - Load(net[i], n) + Load(x, n)
  {
    var net' := net[i := x];
    if i == 0 {
      assert net'[1..] == net[1..];
    } else {
      LoadUpdate(net[1..], n, i - 1, x);
      assert net'[1..] == net[1..][i - 1 := x];
    }
  }

  lemma {:induction false} LoadShift(net: Net, net': Net, n: nat, w: nat)
    requires |net'| == |net|
    requires forall j :: 0 <= j < |net| ==> Load(net'[j], n) == Load(net[j], n) + w
    ensures TotalLoad(net', n) == TotalLoad(net, n) + |net| * w
  {
    hide Load;
    if net != [] {
      LoadShift(net[1..], net'[1..], n, w);
      assert |net| * w == (|net| - 1) * w + w;
    }
  }

  lemma LoadBroadcast(net: Net, n: nat, m: Message)
    ensures TotalLoad(Broadcast(net, m), n) == TotalLoad(net, n) + |net| * Sent(m, n)
  {
    assert SentAll([m], n) == Sent(m, n);
    forall j | 0 <= j < |net| ensures Load(Broadcast(net, m)[j], n) == Load(net[j], n) + Sent(m, n) {
      SentConcat(net[j].inbox, [m], n);
    }
    LoadShift(net, Broadcast(net, m), n, Sent(m, n));
  }

  /** A step that is not a command leaves less to happen. */
  lemma StepDecreases(net: Net, step: Step)
    requires Enabled(net, step) && !IsCommand(step)
    ensures Measure(Next(net, step)) < Measure(net)
  {
    var n, i := |net|, step.i;
    var node := net[i];
    match step
    case Publish(_, k) =>
      var sent := node.(outbox := WithoutAt(node.outbox, k));
      PendingWithout(node.outbox, k, n);
      LoadUpdate(net, n, i, sent);
      LoadBroadcast(net[i := sent], n, node.outbox[k]);
    case Receive(_) =>
      ProcessLoad(node, i, n);
      LoadUpdate(net, n, i, Process(node, i));
    case Fire(_) =>
      assert (node.started + 1) * (n + 2) == node.started * (n + 2) + (n + 2);
      LoadUpdate(net, n, i, node.(status := node.status.(armed := false), started := node.started + 1));
    case Callback(_) =>
      CallbackLoad(net, i, n);
      LoadUpdate(net, n, i, Next(net, step)[i]);
      assert Next(net, step) == net[i := Next(net, step)[i]];
  }

  lemma ProcessLoad(node: Node, i: nat, n: nat)
    requires node.inbox != []
    ensures Load(Process(node, i), n) < Load(node, n)
  {
    assert SentAll(node.inbox, n) == Sent(node.inbox[0], n) + SentAll(node.inbox[1..], n);
  }

  lemma CallbackLoad(net: Net, i: nat, n: nat)
    requires Enabled(net, Callback(i))
    ensures Load(Next(net, Callback(i))[i], n) == Load(net[i], n) - 1 - if net[i].status.armed then n + 3 else 0
  {
    var m, node := Message(i, true, false, []), net[i];
    CallbackAnnounces(net, i);
    PendingConcat(node.outbox, [m], n);
    assert Pending([m], n) == 1 + n;
    assert node.started * (n + 2) == (node.started - 1) * (n + 2) + (n + 2);
  }

  ghost predicate NoCommands(steps: seq<Step>) {
    forall s :: s in steps ==> !IsCommand(s)
  }

  /** Once commands stop, the number of steps that can still happen is bounded. */
  lemma {:induction false} RunsEnd(net: Net, steps: seq<Step>)
    requires CanRun(net, steps) && NoCommands(steps)
    ensures |steps| + Measure(Run(net, steps)) <= Measure(net)
    decreases |steps|
  {
    if steps != [] {
      assert steps[0] in steps;
      StepDecreases(net, steps[0]);
      RunsEnd(Next(net, steps[0]), steps[1..]);
    }
  }

  /** Nothing is in flight and no timer is pending. */
  predicate Quiet(net: Net) {
    forall i :: 0 <= i < |net| ==> Idle(net[i])
  }

  predicate Idle(n: Node) {
    n.inbox == [] && n.outbox == [] && n.started == 0 && !n.status.armed
  }

  /** A system that can do nothing by itself is quiet, so runs cannot get stuck anywhere else. */
  lemma StuckIsQuiet(net: Net)
    ensures Quiet(net) <==> forall step :: Enabled(net, step) ==> IsCommand(step)
  {
    if !Quiet(net) {
      var i :| 0 <= i < |net| && !Idle(net[i]);
      assert || Enabled(net, Receive(i)) || Enabled(net, Publish(i, 0))
             || Enabled(net, Callback(i)) || Enabled(net, Fire(i));
    }
  }
}

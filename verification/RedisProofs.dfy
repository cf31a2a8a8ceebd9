/** What every run of the synchronised instances keeps, and where commands lead. */
module RedisProofs {
  import opened BlockingStatus
  import opened RedisSync

  // Consistency of every instance, in every reachable state.

  ghost predicate AllConsistent(net: Net) {
    forall i :: 0 <= i < |net| ==> DEFAULT_GROUP in net[i].known && Consistent(net[i].known, net[i].status)
  }

  lemma {:induction false} RunsKeepConsistent(net: Net, steps: seq<Step>)
    requires AllConsistent(net) && CanRun(net, steps)
    ensures AllConsistent(Run(net, steps))
    decreases |steps|
  {
    if steps != [] {
      var n := net[steps[0].i];
      if steps[0].CommandDisable? {
        StepsKeepConsistent(n.known, n.status, steps[0].timed, steps[0].groups);
      } else if steps[0].Receive? {
        StepsKeepConsistent(n.known, n.status, n.inbox[0].timed, n.inbox[0].groups);
      }
      RunsKeepConsistent(Next(net, steps[0]), steps[1..]);
    }
  }

  // Timed disables end.

  /** Every instance knows the groups. */
  ghost predicate Universal(ks: seq<seq<string>>, groups: seq<string>) {
    forall i :: 0 <= i < |ks| ==> AllKnown(ks[i], groups)
  }

  ghost predicate Recoverable(ks: seq<seq<string>>, m: Message) {
    m.enable || (m.timed && Universal(ks, m.groups))
  }

  /** Blocking is on, or a timer or a started callback will turn it on. */
  predicate Returns(n: Node) {
    n.status.enabled || n.status.armed || n.started > 0
  }

  /** Whoever is disabled will return, and no message in flight can change that; instance `i` knows `ks[i]`. */
  ghost predicate Recovering(net: Net, ks: seq<seq<string>>) {
    |net| == |ks| && forall i :: 0 <= i < |net| ==> NodeRecovering(net[i], ks[i], ks)
  }

  ghost predicate NodeRecovering(n: Node, known: seq<string>, ks: seq<seq<string>>) {
    && n.known == known && Returns(n)
    && (forall m :: m in n.inbox || m in n.outbox ==> Recoverable(ks, m))
  }

  /** Every disable command is timed and names only groups that every instance knows. */
  ghost predicate OnlyTimed(ks: seq<seq<string>>, steps: seq<Step>) {
    forall s :: s in steps && s.CommandDisable? ==> s.timed && Universal(ks, s.groups)
  }

  lemma StepKeepsRecovering(net: Net, step: Step, ks: seq<seq<string>>)
    requires Recovering(net, ks) && Enabled(net, step) && OnlyTimed(ks, [step])
    ensures Recovering(Next(net, step), ks)
  {
    hide Universal;
    var n := net[step.i];
    var known := ks[step.i];
    assert NodeRecovering(n, known, ks) && step in [step];
    match step
    case Publish(i, k) =>
      var m := n.outbox[k];
      assert m in n.outbox && Recoverable(ks, m);
      var net' := Next(net, step);
      forall j | 0 <= j < |net| ensures NodeRecovering(net'[j], ks[j], ks) {
        assert NodeRecovering(net[j], ks[j], ks);
      }
    case Receive(i) =>
      assert n.inbox[0] in n.inbox;
      UniversalAt(ks, n.inbox[0].groups, i);
      assert NodeRecovering(Process(n, i), known, ks);
    case CommandDisable(i, timed, groups) =>
      UniversalAt(ks, groups, i);
    case _ =>
  }

  lemma UniversalAt(ks: seq<seq<string>>, groups: seq<string>, i: nat)
    requires i < |ks|
    ensures Universal(ks, groups) ==> AllKnown(ks[i], groups)
  {
  }

  lemma {:induction false} RunsKeepRecovering(net: Net, steps: seq<Step>, ks: seq<seq<string>>)
    requires Recovering(net, ks) && CanRun(net, steps) && OnlyTimed(ks, steps)
    ensures Recovering(Run(net, steps), ks)
    decreases |steps|
  {
    hide Universal;
    if steps != [] {
      assert steps[0] in steps;
      StepKeepsRecovering(net, steps[0], ks);
      RunsKeepRecovering(Next(net, steps[0]), steps[1..], ks);
    }
  }

  /**
    If all disables are timed and name groups that every instance knows, every run that can go no
    further ends with blocking enabled everywhere, whatever the order of timers, callbacks and messages.
   */
  lemma TimedDisablesEnd(net: Net, steps: seq<Step>, ks: seq<seq<string>>)
    requires Recovering(net, ks) && AllConsistent(net) && CanRun(net, steps) && OnlyTimed(ks, steps)
    requires Quiet(Run(net, steps))
    ensures var end := Run(net, steps);
      forall i :: 0 <= i < |end| ==> end[i].status == Status(true, [], false)
  {
    RunsKeepRecovering(net, steps, ks);
    RunsKeepConsistent(net, steps);
    var end := Run(net, steps);
    forall i | 0 <= i < |end| ensures end[i].status == Status(true, [], false) {
      assert NodeRecovering(end[i], ks[i], ks);
    }
  }

  /** Exactly the disables that leave their own instance with blocking on, or with something that will turn it on. */
  lemma DisableRecoversIff(n: Node, i: nat, timed: bool, groups: seq<string>)
    ensures Returns(DisableAndPublish(n, i, timed, groups))
       <==> n.started > 0 || (if AllKnown(n.known, groups) then timed else n.status.enabled)
  {
  }

  /** Exactly the received messages that do so: a foreign disable acts as an own one, unknown groups included. */
  lemma ReceiveRecoversIff(n: Node, i: nat)
    requires n.inbox != []
    ensures var m := n.inbox[0];
      Returns(Process(n, i)) <==>
        || n.started > 0 || (m.sender != i && m.enable)
        || (if m.sender == i then Returns(n)
            else if AllKnown(n.known, m.groups) then m.timed
            else n.status.enabled)
  {
  }

  // Runs that leave blocking off.

  ghost predicate Reaches(net: Net, steps: seq<Step>, end: Net) {
    CanRun(net, steps) && Run(net, steps) == end
  }

  lemma {:induction false} ReachesSnoc(net: Net, steps: seq<Step>, mid: Net, step: Step)
    requires Reaches(net, steps, mid) && Enabled(mid, step)
    ensures Reaches(net, steps + [step], Next(mid, step))
    decreases |steps|
  {
    if steps == [] {
      assert steps + [step] == [step] && [step][1..] == [];
    } else {
      ReachesSnoc(Next(net, steps[0]), steps[1..], mid, step);
      assert (steps + [step])[0] == steps[0] && (steps + [step])[1..] == steps[1..] + [step];
    }
  }

  predicate StepsTo(net: Net, step: Step, net': Net) {
    Enabled(net, step) && Next(net, step) == net'
  }

  lemma FourSteps(n0: Net, s0: Step, n1: Net, s1: Step, n2: Net, s2: Step, n3: Net, s3: Step, n4: Net)
    requires StepsTo(n0, s0, n1) && StepsTo(n1, s1, n2) && StepsTo(n2, s2, n3) && StepsTo(n3, s3, n4)
    ensures Reaches(n0, [s0, s1, s2, s3], n4)
  {
    hide Enabled, Next;
    assert Reaches(n0, [], n0);
    assert Reaches(n0, [s0], n1) by { ReachesSnoc(n0, [], n0, s0); assert [] + [s0] == [s0]; }
    hide Reaches;
    ReachesSnoc(n0, [s0], n1, s1);
    assert [s0] + [s1] == [s0, s1];
    ReachesSnoc(n0, [s0, s1], n2, s2);
    assert [s0, s1] + [s2] == [s0, s1, s2];
    ReachesSnoc(n0, [s0, s1, s2], n3, s3);
    assert [s0, s1, s2] + [s3] == [s0, s1, s2, s3];
  }

  /** A disable that names an unknown group stops the timer of the one before it, and nothing starts it again. */
  lemma FailedDisableStrands(known: seq<string>, unknown: string)
    requires unknown !in known
    ensures var net := [Node(known, Status(true, [], false), 0, [], [])];
      var steps := [CommandDisable(0, true, []), Publish(0, 0), Receive(0), CommandDisable(0, false, [unknown])];
      CanRun(net, steps) && Quiet(Run(net, steps)) && !Run(net, steps)[0].status.enabled
  {
    var m := Message(0, false, true, []);
    var off := Status(false, known, true);
    var net0 := [Node(known, Status(true, [], false), 0, [], [])];
    var net1 := [Node(known, off, 0, [m], [])];
    var net2 := [Node(known, off, 0, [], [m])];
    var net3 := [Node(known, off, 0, [], [])];
    var net4 := [Node(known, off.(armed := false), 0, [], [])];
    var s0, s1, s2, s3 := CommandDisable(0, true, []), Publish(0, 0), Receive(0), CommandDisable(0, false, [unknown]);
    assert [] + [m] == [m] && WithoutAt([m], 0) == [];
    assert StepsTo(net0, s0, net1);
    assert StepsTo(net1, s1, net2);
    assert StepsTo(net2, s2, net3);
    assert StepsTo(net3, s3, net4) by { assert unknown in [unknown]; }
    hide StepsTo;
    FourSteps(net0, s0, net1, s1, net2, s2, net3, s3, net4);
  }

  /** Two instances, each showing `enabled` and `armed` with one disabled group, and what is on its way to them. */
  function Pair(ks: (seq<string>, seq<string>), a: Status, b: Status, out0: seq<Message>, out1: seq<Message>,
                in0: seq<Message>, in1: seq<Message>): Net
  {
    [Node(ks.0, a, 0, out0, in0), Node(ks.1, b, 0, out1, in1)]
  }

  lemma DisablePair(ks: (seq<string>, seq<string>), ga: string, gb: string)
    requires ga in ks.0 && gb in ks.1
    ensures var on, a, b := Status(true, [], false), Status(false, [ga], true), Status(false, [gb], true);
      var m0, m1 := Message(0, false, true, [ga]), Message(1, false, true, [gb]);
      && StepsTo(Pair(ks, on, on, [], [], [], []), CommandDisable(0, true, [ga]), Pair(ks, a, on, [m0], [], [], []))
      && StepsTo(Pair(ks, a, on, [m0], [], [], []), CommandDisable(1, true, [gb]), Pair(ks, a, b, [m0], [m1], [], []))
  {
    var m0, m1 := Message(0, false, true, [ga]), Message(1, false, true, [gb]);
    assert [] + [m0] == [m0] && [] + [m1] == [m1];
  }

  lemma PublishPair(ks: (seq<string>, seq<string>), a: Status, b: Status, m0: Message, m1: Message)
    ensures StepsTo(Pair(ks, a, b, [m0], [m1], [], []), Publish(0, 0), Pair(ks, a, b, [], [m1], [m0], [m0]))
    ensures StepsTo(Pair(ks, a, b, [], [m1], [m0], [m0]), Publish(1, 0), Pair(ks, a, b, [], [], [m0, m1], [m0, m1]))
  {
    assert WithoutAt([m0], 0) == [] && WithoutAt([m1], 0) == [];
    assert [] + [m0] == [m0] && [m0] + [m1] == [m0, m1];
  }

  /** Both instances are disabled for a time and publish that. */
  lemma CrossingCommands(ks: (seq<string>, seq<string>), ga: string, gb: string)
    requires ga in ks.0 && gb in ks.1
    ensures var on := Status(true, [], false);
      var m0, m1 := Message(0, false, true, [ga]), Message(1, false, true, [gb]);
      Reaches(Pair(ks, on, on, [], [], [], []),
              [CommandDisable(0, true, [ga]), CommandDisable(1, true, [gb]), Publish(0, 0), Publish(1, 0)],
              Pair(ks, Status(false, [ga], true), Status(false, [gb], true), [], [], [m0, m1], [m0, m1]))
  {
    var on, a, b := Status(true, [], false), Status(false, [ga], true), Status(false, [gb], true);
    var m0, m1 := Message(0, false, true, [ga]), Message(1, false, true, [gb]);
    var s0, s1, s2, s3 := CommandDisable(0, true, [ga]), CommandDisable(1, true, [gb]), Publish(0, 0), Publish(1, 0);
    var n0, n1 := Pair(ks, on, on, [], [], [], []), Pair(ks, a, on, [m0], [], [], []);
    var n2, n3 := Pair(ks, a, b, [m0], [m1], [], []), Pair(ks, a, b, [], [m1], [m0], [m0]);
    var n4 := Pair(ks, a, b, [], [], [m0, m1], [m0, m1]);
    DisablePair(ks, ga, gb);
    PublishPair(ks, a, b, m0, m1);
    hide StepsTo, Pair;
    FourSteps(n0, s0, n1, s1, n2, s2, n3, s3, n4);
  }

  /** Each instance skips its own message and fails on the other's, after stopping its timer. */
  lemma CrossingMessages(ks: (seq<string>, seq<string>), ga: string, gb: string)
    requires ga !in ks.1 && gb !in ks.0
    ensures var m0, m1 := Message(0, false, true, [ga]), Message(1, false, true, [gb]);
      Reaches(Pair(ks, Status(false, [ga], true), Status(false, [gb], true), [], [], [m0, m1], [m0, m1]),
              [Receive(0), Receive(0), Receive(1), Receive(1)],
              Pair(ks, Status(false, [ga], false), Status(false, [gb], false), [], [], [], []))
  {
    var a, b := Status(false, [ga], true), Status(false, [gb], true);
    var m0, m1 := Message(0, false, true, [ga]), Message(1, false, true, [gb]);
    var s0, s1 := Receive(0), Receive(1);
    var n0, n1 := Pair(ks, a, b, [], [], [m0, m1], [m0, m1]), Pair(ks, a, b, [], [], [m1], [m0, m1]);
    var n2 := Pair(ks, a.(armed := false), b, [], [], [], [m0, m1]);
    var n3 := Pair(ks, a.(armed := false), b.(armed := false), [], [], [], [m1]);
    assert [m0, m1][1..] == [m1] && [m1][1..] == [] && ga in [ga] && gb in [gb];
    var n4 := Pair(ks, a.(armed := false), b.(armed := false), [], [], [], []);
    assert StepsTo(n0, s0, n1);
    assert StepsTo(n1, s0, n2);
    assert StepsTo(n2, s1, n3);
    assert StepsTo(n3, s1, n4);
    hide StepsTo, Pair;
    FourSteps(n0, s0, n1, s0, n2, s1, n3, s1, n4);
  }

  lemma {:induction false} ReachesThen(net: Net, first: seq<Step>, mid: Net, second: seq<Step>, end: Net)
    requires Reaches(net, first, mid) && Reaches(mid, second, end)
    ensures Reaches(net, first + second, end)
    decreases |first|
  {
    hide Next, Enabled;
    if first == [] {
      assert first + second == second;
    } else {
      ReachesThen(Next(net, first[0]), first[1..], mid, second, end);
      assert (first + second)[0] == first[0] && (first + second)[1..] == first[1..] + second;
    }
  }

  /**
    Two instances with different groups: each is disabled for a time, validly, while the message of
    the other is on its way. Both timers are stopped by the other's unknown group, and blocking stays
    off on both.
   */
  lemma DifferentGroupsStrand(ks: (seq<string>, seq<string>), ga: string, gb: string) returns (steps: seq<Step>)
    requires ga in ks.0 && gb in ks.1 && ga !in ks.1 && gb !in ks.0
    ensures var net := Pair(ks, Status(true, [], false), Status(true, [], false), [], [], [], []);
      && CanRun(net, steps) && Quiet(Run(net, steps))
      && (forall s :: s in steps && s.CommandDisable? ==> s.timed && s.i < 2 && AllKnown(net[s.i].known, s.groups))
      && !Run(net, steps)[0].status.enabled && !Run(net, steps)[1].status.enabled
  {
    hide Next, Enabled, CanRun, Run;
    var on := Status(true, [], false);
    var m0, m1 := Message(0, false, true, [ga]), Message(1, false, true, [gb]);
    var first := [CommandDisable(0, true, [ga]), CommandDisable(1, true, [gb]), Publish(0, 0), Publish(1, 0)];
    var second := [Receive(0), Receive(0), Receive(1), Receive(1)];
    steps := first + second;
    CrossingCommands(ks, ga, gb);
    CrossingMessages(ks, ga, gb);
    assert forall s :: s in steps && s.CommandDisable? ==> s in first;
    ReachesThen(Pair(ks, on, on, [], [], [], []), first,
                Pair(ks, Status(false, [ga], true), Status(false, [gb], true), [], [], [m0, m1], [m0, m1]), second,
                Pair(ks, Status(false, [ga], false), Status(false, [gb], false), [], [], [], []));
  }

  // One disable, from a quiet net with blocking on.

  function Disables(ms: seq<Message>): nat {
    if ms == [] then 0 else (if ms[0].enable then 0 else 1) + Disables(ms[1..])
  }

  lemma {:induction false} DisablesConcat(a: seq<Message>, b: seq<Message>)
    ensures Disables(a + b) == Disables(a) + Disables(b)
  {
    if a == [] {
      assert a + b == b;
    } else {
      DisablesConcat(a[1..], b);
      assert (a + b)[1..] == a[1..] + b;
    }
  }

  lemma DisablesWithout(s: seq<Message>, k: nat)
    requires k < |s|
    ensures Disables(WithoutAt(s, k)) == Disables(s) - if s[k].enable then 0 else 1
  {
    hide Disables;
    assert s == s[..k] + ([s[k]] + s[k + 1..]);
    DisablesConcat(s[..k], [s[k]] + s[k + 1..]);
    DisablesConcat([s[k]], s[k + 1..]);
    DisablesConcat(s[..k], s[k + 1..]);
    DisablesOfOne(s[k]);
  }

  ghost predicate OnlyDisable(ms: seq<Message>, m: Message) {
    forall x :: x in ms && !x.enable ==> x == m
  }

  /** How many times the disable of instance `c` is still ahead of instance `j`. */
  function Ahead(net: Net, c: nat, j: nat): nat
    requires c < |net| && j < |net|
  {
    Disables(net[j].inbox) + Disables(net[c].outbox)
  }

  /** Node `j` while the timed disable `m` of instance `c` spreads; `ahead` copies of it are still to come. */
  ghost predicate NodeSpreads(n: Node, j: nat, c: nat, m: Message, ahead: nat) {
    && Returns(n) && OnlyDisable(n.inbox, m) && OnlyDisable(n.outbox, m)
    && ahead <= 1 && (j != c && ahead == 1 ==> n.status.enabled) && (j != c ==> Disables(n.outbox) == 0)
  }

  ghost predicate TimedSpreads(net: Net, c: nat, m: Message) {
    && c < |net| && m.sender == c && m.timed && !m.enable
    && forall j :: 0 <= j < |net| ==> NodeSpreads(net[j], j, c, m, Ahead(net, c, j))
  }

  lemma DisablesOfOne(m: Message)
    ensures Disables([m]) == if m.enable then 0 else 1
  {
    assert [m][1..] == [];
  }

  lemma StepKeepsTimedSpreads(net: Net, step: Step, c: nat, m: Message)
    requires TimedSpreads(net, c, m) && Enabled(net, step) && !IsCommand(step)
    ensures TimedSpreads(Next(net, step), c, m)
  {
    var n := net[step.i];
    assert NodeSpreads(n, step.i, c, m, Ahead(net, c, step.i));
    match step
    case Publish(i, k) =>
      PublishKeepsTimedSpreads(net, i, k, c, m);
    case Receive(i) =>
      ReceiveKeepsTimedSpreads(net, i, c, m);
    case Fire(i) =>
      forall j | 0 <= j < |net| ensures NodeSpreads(Next(net, step)[j], j, c, m, Ahead(Next(net, step), c, j)) {
        assert NodeSpreads(net[j], j, c, m, Ahead(net, c, j));
      }
    case Callback(i) =>
      var x := Message(i, true, false, []);
      DisablesConcat(n.outbox, [x]);
      DisablesOfOne(x);
      forall j | 0 <= j < |net| ensures NodeSpreads(Next(net, step)[j], j, c, m, Ahead(Next(net, step), c, j)) {
        assert NodeSpreads(net[j], j, c, m, Ahead(net, c, j));
      }
  }

  lemma PublishKeepsTimedSpreads(net: Net, i: nat, k: nat, c: nat, m: Message)
    requires TimedSpreads(net, c, m) && Enabled(net, Publish(i, k))
    ensures TimedSpreads(Next(net, Publish(i, k)), c, m)
  {
    var x, net' := net[i].outbox[k], Next(net, Publish(i, k));
    DisablesWithout(net[i].outbox, k);
    DisablesOfOne(x);
    assert NodeSpreads(net[i], i, c, m, Ahead(net, c, i)) && x in net[i].outbox;
    NoDisables(net[i].outbox, k);
    forall j | 0 <= j < |net| ensures NodeSpreads(net'[j], j, c, m, Ahead(net', c, j)) {
      assert NodeSpreads(net[j], j, c, m, Ahead(net, c, j));
      DisablesConcat(net[j].inbox, [x]);
      assert net'[j].inbox == net[j].inbox + [x];
      assert Ahead(net', c, j) == Ahead(net, c, j);
    }
  }

  lemma {:induction false} NoDisables(ms: seq<Message>, k: nat)
    requires k < |ms|
    ensures Disables(ms) == 0 ==> ms[k].enable
  {
    if k > 0 {
      NoDisables(ms[1..], k - 1);
    }
  }

  lemma ReceiveKeepsTimedSpreads(net: Net, i: nat, c: nat, m: Message)
    requires TimedSpreads(net, c, m) && Enabled(net, Receive(i))
    ensures TimedSpreads(Next(net, Receive(i)), c, m)
  {
    var n, net' := net[i], Next(net, Receive(i));
    var x := n.inbox[0];
    assert NodeSpreads(n, i, c, m, Ahead(net, c, i)) && x in n.inbox;
    assert Disables(n.inbox) == (if x.enable then 0 else 1) + Disables(n.inbox[1..]);
    forall j | 0 <= j < |net| ensures NodeSpreads(net'[j], j, c, m, Ahead(net', c, j)) {
      assert NodeSpreads(net[j], j, c, m, Ahead(net, c, j));
    }
  }

  lemma {:induction false} RunsKeepTimedSpreads(net: Net, steps: seq<Step>, c: nat, m: Message)
    requires TimedSpreads(net, c, m) && CanRun(net, steps) && NoCommands(steps)
    ensures TimedSpreads(Run(net, steps), c, m)
    decreases |steps|
  {
    hide TimedSpreads;
    if steps != [] {
      assert steps[0] in steps;
      StepKeepsTimedSpreads(net, steps[0], c, m);
      RunsKeepTimedSpreads(Next(net, steps[0]), steps[1..], c, m);
    }
  }

  /** A disable without end is on its way: no timer runs, nobody publishes an enable, instance `c` is off. */
  ghost predicate EndlessSpreads(net: Net, c: nat) {
    && c < |net| && !net[c].status.enabled
    && forall j :: 0 <= j < |net| ==>
      && !net[j].status.armed && net[j].started == 0
      && (forall x :: x in net[j].inbox || x in net[j].outbox ==> !x.enable && !x.timed)
  }

  lemma {:induction false} RunsKeepEndless(net: Net, steps: seq<Step>, c: nat)
    requires EndlessSpreads(net, c) && CanRun(net, steps) && NoCommands(steps)
    ensures EndlessSpreads(Run(net, steps), c)
    decreases |steps|
  {
    if steps != [] {
      assert steps[0] in steps;
      StepKeepsEndless(net, steps[0], c);
      RunsKeepEndless(Next(net, steps[0]), steps[1..], c);
    }
  }

  lemma StepKeepsEndless(net: Net, step: Step, c: nat)
    requires EndlessSpreads(net, c) && Enabled(net, step) && !IsCommand(step)
    ensures EndlessSpreads(Next(net, step), c)
  {
    match step
    case Publish(i, k) =>
      assert net[i].outbox[k] in net[i].outbox;
    case Receive(i) =>
      assert net[i].inbox[0] in net[i].inbox;
    case _ =>
  }

  /** Nothing is pending, and blocking is on everywhere. */
  predicate AllOn(net: Net) {
    forall i :: 0 <= i < |net| ==> net[i].status.enabled
  }

  /**
    The exact condition for one disable, given to any instance of a quiet net with blocking on, whatever
    groups the instances know: blocking is on again everywhere, once nothing more can happen, if and only
    if the disable was timed or failed.
   */
  lemma OneDisableEndsIff(net: Net, c: nat, timed: bool, groups: seq<string>, steps: seq<Step>)
    requires Quiet(net) && AllOn(net) && c < |net|
    requires CanRun(Next(net, CommandDisable(c, timed, groups)), steps) && NoCommands(steps)
    requires Quiet(Run(Next(net, CommandDisable(c, timed, groups)), steps))
    ensures AllOn(Run(Next(net, CommandDisable(c, timed, groups)), steps))
       <==> timed || !AllKnown(net[c].known, groups)
  {
    var net' := Next(net, CommandDisable(c, timed, groups));
    var m := Message(c, false, timed, groups);
    var end := Run(net', steps);
    if !AllKnown(net[c].known, groups) {
      QuietStays(net', steps);
    } else if timed {
      TimedStarts(net, c, groups);
      hide Next;
      RunsKeepTimedSpreads(net', steps, c, m);
      forall i | 0 <= i < |end| ensures end[i].status.enabled {
        assert NodeSpreads(end[i], i, c, m, Ahead(end, c, i));
      }
    } else {
      EndlessStarts(net, c, groups);
      hide Next;
      RunsKeepEndless(net', steps, c);
    }
  }

  lemma TimedStarts(net: Net, c: nat, groups: seq<string>)
    requires Quiet(net) && AllOn(net) && c < |net| && AllKnown(net[c].known, groups)
    ensures TimedSpreads(Next(net, CommandDisable(c, true, groups)), c, Message(c, false, true, groups))
  {
    var m := Message(c, false, true, groups);
    assert [] + [m] == [m];
    DisablesOfOne(m);
  }

  lemma EndlessStarts(net: Net, c: nat, groups: seq<string>)
    requires Quiet(net) && AllOn(net) && c < |net| && AllKnown(net[c].known, groups)
    ensures EndlessSpreads(Next(net, CommandDisable(c, false, groups)), c)
  {
    var m := Message(c, false, false, groups);
    assert [] + [m] == [m];
  }

  lemma QuietIsStuck(net: Net, step: Step)
    requires Quiet(net) && Enabled(net, step)
    ensures IsCommand(step)
  {
    StuckIsQuiet(net);
  }

  lemma QuietStays(net: Net, steps: seq<Step>)
    requires Quiet(net) && CanRun(net, steps) && NoCommands(steps)
    ensures Run(net, steps) == net
  {
    if steps != [] {
      QuietIsStuck(net, steps[0]);
    }
  }

  // An expired timer reaches everybody.

  /** No timer runs, no callback is under way, and no disable is in flight. */
  ghost predicate OnlyEnables(net: Net) {
    forall j :: 0 <= j < |net| ==>
      && !net[j].status.armed && net[j].started == 0
      && (forall m :: m in net[j].inbox || m in net[j].outbox ==> m.enable)
  }

  /** An enable of another instance is on its way to instance `j`: in its inbox, or in the outbox of `i`. */
  ghost predicate EnableAhead(net: Net, i: nat, j: nat)
    requires i < |net| && j < |net|
  {
    (exists m :: m in net[j].inbox && m.sender != j) || (exists m :: m in net[i].outbox && m.sender == i)
  }

  /** The enable of instance `i` is spreading: whoever is not enabled yet has it ahead. */
  ghost predicate EnableSpreads(net: Net, i: nat) {
    && i < |net| && OnlyEnables(net) && net[i].status.enabled
    && forall j :: 0 <= j < |net| && j != i ==> net[j].status.enabled || EnableAhead(net, i, j)
  }

  lemma StepKeepsEnableSpreads(net: Net, step: Step, i: nat)
    requires EnableSpreads(net, i) && Enabled(net, step) && !IsCommand(step)
    ensures EnableSpreads(Next(net, step), i)
  {
    match step
    case Publish(k, at) =>
      PublishKeepsEnableSpreads(net, k, at, i);
    case Receive(k) =>
      ReceiveKeepsEnableSpreads(net, k, i);
    case _ =>
  }

  lemma PublishKeepsEnableSpreads(net: Net, k: nat, at: nat, i: nat)
    requires EnableSpreads(net, i) && Enabled(net, Publish(k, at))
    ensures EnableSpreads(Next(net, Publish(k, at)), i)
  {
    var x, net' := net[k].outbox[at], Next(net, Publish(k, at));
    assert x in net[k].outbox;
    forall j | 0 <= j < |net|
      ensures net'[j].inbox == net[j].inbox + [x]
      ensures net'[j].status == net[j].status && net'[j].started == net[j].started
      ensures forall m :: m in net'[j].outbox ==> m in net[j].outbox
      ensures forall m :: m in net[j].outbox ==> m in net'[j].outbox || m == x
    {
      PublishDelivers(net, k, at, j);
      if j == k { assert net[k].outbox == net[k].outbox[..at] + [x] + net[k].outbox[at + 1..]; }
    }
    hide Next;
    forall j | 0 <= j < |net| && j != i && !net'[j].status.enabled ensures EnableAhead(net', i, j) {
      assert EnableAhead(net, i, j);
      if m :| m in net[j].inbox && m.sender != j {
        assert m in net'[j].inbox;
      } else {
        var m :| m in net[i].outbox && m.sender == i;
        assert m in net'[i].outbox || m in net'[j].inbox;
      }
    }
  }

  lemma ReceiveKeepsEnableSpreads(net: Net, k: nat, i: nat)
    requires EnableSpreads(net, i) && Enabled(net, Receive(k))
    ensures EnableSpreads(Next(net, Receive(k)), i)
  {
    var net' := Next(net, Receive(k));
    ReceiveActs(net, k);
    hide Next;
    assert net[k].inbox[0] in net[k].inbox;
    assert forall m :: m in net'[k].inbox ==> m in net[k].inbox;
    forall j | 0 <= j < |net| && j != i && !net'[j].status.enabled ensures EnableAhead(net', i, j) {
      assert EnableAhead(net, i, j);
      assert forall m :: m in net[j].inbox && m.sender != j ==> m in net'[j].inbox;
    }
  }

  lemma {:induction false} RunsKeepEnableSpreads(net: Net, steps: seq<Step>, i: nat)
    requires EnableSpreads(net, i) && CanRun(net, steps) && NoCommands(steps)
    ensures EnableSpreads(Run(net, steps), i)
    decreases |steps|
  {
    hide EnableSpreads;
    if steps != [] {
      assert steps[0] in steps;
      StepKeepsEnableSpreads(net, steps[0], i);
      RunsKeepEnableSpreads(Next(net, steps[0]), steps[1..], i);
    }
  }

  /**
    A timer callback brings blocking back on every instance, not only on its own: if nothing else is
    pending and no disable is in flight, every run to quiet after it ends with blocking on everywhere,
    whatever groups the instances know and whoever disabled them.
   */
  lemma CallbackEnablesAll(net: Net, i: nat, steps: seq<Step>)
    requires Enabled(net, Callback(i)) && net[i].started == 1
    requires forall j :: 0 <= j < |net| ==>
      && (j != i ==> !net[j].status.armed && net[j].started == 0)
      && (forall m :: m in net[j].inbox || m in net[j].outbox ==> m.enable)
    requires CanRun(Next(net, Callback(i)), steps) && NoCommands(steps) && Quiet(Run(Next(net, Callback(i)), steps))
    ensures AllOn(Run(Next(net, Callback(i)), steps))
  {
    var net' := Next(net, Callback(i));
    CallbackAnnounces(net, i);
    hide Next;
    var m := Message(i, true, false, []);
    assert m in net'[i].outbox;
    assert EnableSpreads(net', i);
    RunsKeepEnableSpreads(net', steps, i);
    var end := Run(net', steps);
    hide Run;
    forall j | 0 <= j < |end| ensures end[j].status.enabled {
      assert Idle(end[j]) && Idle(end[i]);
    }
  }

  // A command reaches everybody.

  predicate NothingInFlight(net: Net) {
    forall i :: 0 <= i < |net| ==> net[i].inbox == [] && net[i].outbox == []
  }

  predicate SameGroups(net: Net, known: seq<string>) {
    forall i :: 0 <= i < |net| ==> net[i].known == known
  }

  /** The part of the status that clients see. */
  predicate Shows(n: Node, enabled: bool, groups: seq<string>) {
    n.status.enabled == enabled && n.status.disabledGroups == groups
  }

  /** What an instance shows after it acted on `m`. */
  function Outcome(m: Message, known: seq<string>): (bool, seq<string>) {
    if m.enable then (true, []) else (false, if m.groups == [] then known else m.groups)
  }

  predicate Done(n: Node, m: Message, known: seq<string>) {
    Shows(n, Outcome(m, known).0, Outcome(m, known).1)
  }

  /** The message of a command is about to be published, or is on its way to those that do not show its outcome yet. */
  ghost predicate Spreading(net: Net, c: nat, m: Message, known: seq<string>) {
    && c < |net| && m.sender == c && (m.enable || AllKnown(known, m.groups))
    && SameGroups(net, known) && Done(net[c], m, known)
    && (forall i :: 0 <= i < |net| && i != c ==> net[i].outbox == [])
    && if net[c].outbox == [m] then forall i :: 0 <= i < |net| ==> net[i].inbox == []
       else
         && net[c].outbox == []
         && forall i :: 0 <= i < |net| ==> net[i].inbox == [m] || (net[i].inbox == [] && Done(net[i], m, known))
  }

  lemma StepKeepsSpreading(net: Net, step: Step, c: nat, m: Message, known: seq<string>)
    requires Spreading(net, c, m, known) && Enabled(net, step) && !IsCommand(step) && !step.Callback?
    ensures Spreading(Next(net, step), c, m, known)
  {
    match step
    case Publish(i, k) =>
      assert i == c && k == 0;
      assert WithoutAt([m], 0) == [];
    case Receive(i) =>
      assert net[i].inbox == [m] && [m][1..] == [];
    case Fire(i) =>
  }

  lemma {:induction false} RunsKeepSpreading(net: Net, steps: seq<Step>, c: nat, m: Message, known: seq<string>)
    requires Spreading(net, c, m, known) && CanRun(net, steps)
    requires forall s :: s in steps ==> !IsCommand(s) && !s.Callback?
    ensures Spreading(Run(net, steps), c, m, known)
    decreases |steps|
  {
    if steps != [] {
      assert steps[0] in steps;
      StepKeepsSpreading(net, steps[0], c, m, known);
      RunsKeepSpreading(Next(net, steps[0]), steps[1..], c, m, known);
    }
  }

  /** Whether a command succeeds on its instance. */
  predicate Succeeds(net: Net, command: Step)
    requires Enabled(net, command) && IsCommand(command)
  {
    command.CommandDisable? ==> AllKnown(net[command.i].known, command.groups)
  }

  /**
    A successful command that is issued while nothing is in flight leaves all instances with the
    same flag and the same disabled groups once its message is delivered, unless a timer callback
    runs in between.
   */
  lemma CommandsConverge(net: Net, command: Step, steps: seq<Step>, known: seq<string>)
    requires NothingInFlight(net) && SameGroups(net, known)
    requires IsCommand(command) && Enabled(net, command) && Succeeds(net, command)
    requires CanRun(Next(net, command), steps)
    requires forall s :: s in steps ==> !IsCommand(s) && !s.Callback?
    requires NothingInFlight(Run(Next(net, command), steps))
    ensures var end := Run(Next(net, command), steps);
      forall i :: 0 <= i < |end| ==>
        if command.CommandEnable? then Shows(end[i], true, [])
        else Shows(end[i], false, if command.groups == [] then known else command.groups)
  {
    var c := command.i;
    var m := if command.CommandEnable? then Message(c, true, false, [])
             else Message(c, false, command.timed, command.groups);
    assert [] + [m] == [m];
    assert Spreading(Next(net, command), c, m, known);
    RunsKeepSpreading(Next(net, command), steps, c, m, known);
  }

  /** A failed command publishes nothing and changes nothing that clients see. */
  lemma FailedCommandKeepsAgreement(net: Net, command: Step, i: nat)
    requires IsCommand(command) && Enabled(net, command) && !Succeeds(net, command) && i < |net|
    ensures Next(net, command)[i].outbox == net[i].outbox && Next(net, command)[i].inbox == net[i].inbox
    ensures Shows(Next(net, command)[i], net[i].status.enabled, net[i].status.disabledGroups)
  {
    assert net[command.i].outbox + [] == net[command.i].outbox;
  }
}

/**
 What each operation of the hand-off does from start to end when no other thread moves: the answers that the safety
 results, which hold in every interleaving, leave open. In particular a pass of the capture thread handles every packet
 of every session.
 */
module HandOffAlone {
  import opened Bytes
  import opened HandOff

  /** `n` steps of thread `t`. */
  function Steps(st: State, t: nat, a: Action, n: nat): Option<State>
    decreases n
  {
    if n == 0 then Some(st)
    else
      var next := Step(st, t, a);
      if next == None then None else Steps(next.value, t, a, n - 1)
  }

  function Moves(t: nat, a: Action, n: nat): seq<Move> { if n == 0 then [] else [Move(t, a)] + Moves(t, a, n - 1) }

  /** They are a run. */
  lemma {:induction false} StepsAreRun(st: State, t: nat, a: Action, n: nat)
    ensures Steps(st, t, a, n) == Run(st, Moves(t, a, n))
    decreases n
  {
    hide Step;
    if n > 0 {
      assert Moves(t, a, n)[0] == Move(t, a) && Moves(t, a, n)[1..] == Moves(t, a, n - 1);
      var next := Step(st, t, a);
      if next.Some? { StepsAreRun(next.value, t, a, n - 1); }
    }
  }

  lemma OneStep(st: State, t: nat, a: Action, n: nat)
    requires Step(st, t, a).Some?
    ensures Steps(st, t, a, n + 1) == Steps(Step(st, t, a).value, t, a, n)
  {
  }

  lemma {:induction false} StepsJoin(st: State, t: nat, a: Action, n: nat, m: nat)
    requires Steps(st, t, a, n).Some?
    ensures Steps(st, t, a, n + m) == Steps(Steps(st, t, a, n).value, t, a, m)
    decreases n
  {
    hide Step;
    if n > 0 { StepsJoin(Step(st, t, a).value, t, a, n - 1, m); }
  }

  /** Nobody but `t` moved: the other threads are where they were. */
  ghost predicate OthersStay(a: State, b: State, t: nat) {
    && (forall u: nat :: u != t ==> b.pc(u) == a.pc(u))
    && b.pool == a.pool
  }

  /** All locks are as before. */
  ghost predicate SameLocks(a: State, b: State) {
    b.mapLock == a.mapLock && b.vectorLock == a.vectorLock && forall x: nat :: b.listLock(x) == a.listLock(x)
  }

  /** Sessions are as before. */
  ghost predicate SameSessions(a: State, b: State) {
    b.registered == a.registered && b.vector == a.vector && forall x: nat :: b.phase(x) == a.phase(x)
  }

  /** Nothing was handled or dropped. */
  ghost predicate NothingTaken(a: State, b: State) {
    forall x: nat :: b.handled(x) == a.handled(x) && b.dropped(x) == a.dropped(x)
  }

  /** Lists, pool and everything pushed are as before. */
  ghost predicate SameData(a: State, b: State) {
    && NothingTaken(a, b) && b.free == a.free
    && forall x: nat :: b.queue(x) == a.queue(x) && b.pushed(x) == a.pushed(x)
  }

  // ---------- receiving ----------

  /** A push: the block has left the pool, and it and the packet are behind the session's list. */
  ghost predicate Pushed(a: State, b: State, x: nat, block: nat, p: nat) {
    && b.queue(x) == a.queue(x) + [Node(block, p)] && b.pushed(x) == a.pushed(x) + [p]
    && (forall y: nat :: y != x ==> b.queue(y) == a.queue(y) && b.pushed(y) == a.pushed(y))
    && b.free == a.free - {block}
    && NothingTaken(a, b) && SameSessions(a, b)
  }

  /** The list locks are as before but for that of `x`. */
  ghost predicate OtherLists(a: State, b: State, x: nat) {
    b.vectorLock == a.vectorLock && forall y: nat :: y != x ==> b.listLock(y) == a.listLock(y)
  }

  lemma TakesMap(st: State, t: nat, x: nat, p: nat, a: Action)
    requires st.pc(t) == WantMap(x, p) && st.mapLock == None
    ensures var s := Step(st, t, a);
            && s.Some? && s.value.pc(t) == InMap(x, p) && s.value.mapLock == Some(t) && OthersStay(st, s.value, t)
            && SameData(st, s.value) && SameSessions(st, s.value)
            && s.value.vectorLock == st.vectorLock && forall y: nat :: s.value.listLock(y) == st.listLock(y)
  {
  }

  lemma LeavesMap(st: State, t: nat, x: nat, a: Action)
    requires st.pc(t) == LeaveMap(x)
    ensures var s := Step(st, t, a);
            && s.Some? && s.value.pc(t) == Idle && s.value.mapLock == None && OthersStay(st, s.value, t)
            && SameData(st, s.value) && SameSessions(st, s.value)
            && s.value.vectorLock == st.vectorLock && forall y: nat :: s.value.listLock(y) == st.listLock(y)
  {
  }

  /** The thread has taken the block. */
  ghost predicate Took(a: State, b: State, t: nat, block: nat) {
    && OthersStay(a, b, t) && SameLocks(a, b) && SameSessions(a, b) && NothingTaken(a, b) && b.free == a.free - {block}
    && forall y: nat :: b.queue(y) == a.queue(y) && b.pushed(y) == a.pushed(y)
  }

  lemma TakesBlock(st: State, t: nat, x: nat, p: nat, block: nat)
    requires block in st.free && (st.pc(t) == Sock(x, p) || (st.pc(t) == InMap(x, p) && x in st.registered))
    ensures var s := Step(st, t, Go(block));
            && s.Some? && Took(st, s.value, t, block)
            && s.value.pc(t) == if st.pc(t).Sock? then SockBlock(x, p, block) else MapBlock(x, p, block)
  {
  }

  lemma Refuses(st: State, t: nat, x: nat, p: nat, a: Action)
    requires st.pc(t) == InMap(x, p) && (x !in st.registered || a.TooLong? || st.free == {})
    ensures var s := Step(st, t, a);
            && s.Some? && s.value.pc(t) == LeaveMap(x) && OthersStay(st, s.value, t)
            && SameData(st, s.value) && SameSessions(st, s.value) && SameLocks(st, s.value)
  {
  }

  lemma LocksList(st: State, t: nat, x: nat, p: nat, block: nat, a: Action)
    requires st.pc(t) == SockBlock(x, p, block) || st.pc(t) == MapBlock(x, p, block)
    requires st.listLock(x) == None && !Left(st, x)
    ensures var s := Step(st, t, a);
            && s.Some? && OthersStay(st, s.value, t) && SameData(st, s.value) && SameSessions(st, s.value)
            && s.value.mapLock == st.mapLock && OtherLists(st, s.value, x)
            && s.value.pc(t) == if st.pc(t).SockBlock? then SockPush(x, p, block) else MapPush(x, p, block)
  {
  }

  lemma Pushes(st: State, t: nat, x: nat, p: nat, block: nat, a: Action)
    requires st.pc(t) == SockPush(x, p, block) || st.pc(t) == MapPush(x, p, block)
    ensures var s := Step(st, t, a);
            && s.Some? && OthersStay(st, s.value, t) && SameLocks(st, s.value) && SameSessions(st, s.value)
            && NothingTaken(st, s.value) && s.value.free == st.free
            && s.value.queue(x) == st.queue(x) + [Node(block, p)] && s.value.pushed(x) == st.pushed(x) + [p]
            && (forall y: nat :: y != x ==> s.value.queue(y) == st.queue(y) && s.value.pushed(y) == st.pushed(y))
            && s.value.pc(t) == if st.pc(t).SockPush? then SockPushed(x) else MapPushed(x)
  {
  }

  lemma UnlocksList(st: State, t: nat, x: nat, a: Action)
    requires st.pc(t) == SockPushed(x) || st.pc(t) == MapPushed(x)
    ensures var s := Step(st, t, a);
            && s.Some? && OthersStay(st, s.value, t) && SameData(st, s.value) && SameSessions(st, s.value)
            && s.value.mapLock == st.mapLock && OtherLists(st, s.value, x) && s.value.listLock(x) == None
            && s.value.pc(t) == if st.pc(t).SockPushed? then Idle else LeaveMap(x)
  {
  }

  /** Lock, push, unlock. */
  lemma PushAlone(st: State, t: nat, x: nat, p: nat, block: nat, a: Action)
    requires st.pc(t) == SockBlock(x, p, block) || st.pc(t) == MapBlock(x, p, block)
    requires st.listLock(x) == None && !Left(st, x)
    ensures var end := Steps(st, t, a, 3);
            && end.Some? && OthersStay(st, end.value, t) && SameLocks(st, end.value) && SameSessions(st, end.value)
            && NothingTaken(st, end.value) && end.value.free == st.free
            && end.value.queue(x) == st.queue(x) + [Node(block, p)] && end.value.pushed(x) == st.pushed(x) + [p]
            && (forall y: nat :: y != x ==> end.value.queue(y) == st.queue(y) && end.value.pushed(y) == st.pushed(y))
            && end.value.pc(t) == if st.pc(t).SockBlock? then Idle else LeaveMap(x)
  {
    hide Step, Left;
    LocksList(st, t, x, p, block, a);
    var s1 := Step(st, t, a).value;
    Pushes(s1, t, x, p, block, a);
    var s2 := Step(s1, t, a).value;
    UnlocksList(s2, t, x, a);
    ThreeSteps(st, t, a);
  }

  lemma ThreeSteps(st: State, t: nat, a: Action)
    requires var s1 := Step(st, t, a);
             s1.Some? && var s2 := Step(s1.value, t, a); s2.Some? && Step(s2.value, t, a).Some?
    ensures Steps(st, t, a, 3) == Step(Step(Step(st, t, a).value, t, a).value, t, a)
  {
    hide Step;
    var s1 := Step(st, t, a).value;
    var s2 := Step(s1, t, a).value;
    OneStep(st, t, a, 2);
    OneStep(s1, t, a, 1);
    OneStep(s2, t, a, 0);
  }

  /** onRTPData for a known session takes a block and pushes exactly its packet, and gives both locks back. */
  lemma DataAlone(st: State, t: nat, x: nat, p: nat, block: nat)
    requires st.pc(t) == WantMap(x, p) && st.mapLock == None && st.listLock(x) == None && !Left(st, x)
    requires x in st.registered && block in st.free
    ensures var end := Steps(st, t, Go(block), 6);
            && end.Some? && end.value.pc(t) == Idle && OthersStay(st, end.value, t)
            && Pushed(st, end.value, x, block, p) && SameLocks(st, end.value)
  {
    hide Step, Steps;
    var a := Go(block);
    TakesMap(st, t, x, p, a);
    var s1 := Step(st, t, a).value;
    InMapAlone(s1, t, x, p, block);
    var s5 := Steps(s1, t, a, 4).value;
    LeavesMap(s5, t, x, a);
    OneStep(st, t, a, 5);
    StepsJoin(s1, t, a, 4, 1);
    OneStep(s5, t, a, 0);
    NoSteps(Step(s5, t, a).value, t, a);
  }

  /** The part of it under the map's lock. */
  lemma InMapAlone(st: State, t: nat, x: nat, p: nat, block: nat)
    requires st.pc(t) == InMap(x, p) && st.listLock(x) == None && !Left(st, x)
    requires x in st.registered && block in st.free
    ensures var end := Steps(st, t, Go(block), 4);
            && end.Some? && end.value.pc(t) == LeaveMap(x) && OthersStay(st, end.value, t)
            && Pushed(st, end.value, x, block, p) && SameLocks(st, end.value)
  {
    hide Step, Steps;
    var a := Go(block);
    TakesBlock(st, t, x, p, block);
    var s1 := Step(st, t, a).value;
    PushAlone(s1, t, x, p, block, a);
    OneStep(st, t, a, 3);
  }

  lemma NoSteps(st: State, t: nat, a: Action)
    ensures Steps(st, t, a, 0) == Some(st)
  {
  }

  /** Data for an unknown session, too long, or when no block is free, changes nothing. */
  lemma DataRefused(st: State, t: nat, x: nat, p: nat, a: Action)
    requires st.pc(t) == WantMap(x, p) && st.mapLock == None
    requires x !in st.registered || a.TooLong? || st.free == {}
    ensures var end := Steps(st, t, a, 3);
            && end.Some? && end.value.pc(t) == Idle && OthersStay(st, end.value, t)
            && SameData(st, end.value) && SameSessions(st, end.value) && SameLocks(st, end.value)
  {
    hide Step;
    TakesMap(st, t, x, p, a);
    var s1 := Step(st, t, a).value;
    Refuses(s1, t, x, p, a);
    var s2 := Step(s1, t, a).value;
    LeavesMap(s2, t, x, a);
    ThreeSteps(st, t, a);
  }

  /** A socket handler takes a block and pushes exactly its packet. */
  lemma SocketAlone(st: State, t: nat, x: nat, p: nat, block: nat)
    requires st.pc(t) == Sock(x, p) && st.listLock(x) == None && !Left(st, x) && block in st.free
    ensures var end := Steps(st, t, Go(block), 4);
            && end.Some? && end.value.pc(t) == Idle && OthersStay(st, end.value, t)
            && Pushed(st, end.value, x, block, p) && SameLocks(st, end.value)
  {
    hide Step, Steps;
    var a := Go(block);
    TakesBlock(st, t, x, p, block);
    var s1 := Step(st, t, a).value;
    PushAlone(s1, t, x, p, block, a);
    OneStep(st, t, a, 3);
  }

  // ---------- adding ----------

  lemma Registers(st: State, t: nat, x: nat, a: Action)
    requires st.pc(t) == AddMap(x) && st.mapLock == None
    ensures var s1 := Step(st, t, a);
            && s1.Some? && var s2 := Step(s1.value, t, a);
               && s2.Some? && s2.value.pc(t) == AddVector(x) && OthersStay(st, s2.value, t)
               && SameData(st, s2.value) && SameLocks(st, s2.value)
               && s2.value.registered == st.registered + {x} && s2.value.vector == st.vector
               && forall y: nat :: s2.value.phase(y) == st.phase(y)
  {
  }

  lemma PutsInVector(st: State, t: nat, x: nat, a: Action)
    requires st.pc(t) == AddVector(x) && st.vectorLock == None
    ensures var s1 := Step(st, t, a);
            && s1.Some? && var s2 := Step(s1.value, t, a);
               && s2.Some? && s2.value.pc(t) == Idle && OthersStay(st, s2.value, t)
               && SameData(st, s2.value) && SameLocks(st, s2.value)
               && s2.value.registered == st.registered && s2.value.vector == st.vector + [x]
               && forall y: nat :: s2.value.phase(y) == if y == x then Live else st.phase(y)
  {
  }

  /** An addition registers the session and puts it behind the vector. */
  lemma AddAlone(st: State, t: nat, x: nat, a: Action)
    requires st.pc(t) == AddMap(x) && st.mapLock == None && st.vectorLock == None
    ensures var end := Steps(st, t, a, 4);
            && end.Some? && end.value.pc(t) == Idle && OthersStay(st, end.value, t) && SameLocks(st, end.value)
            && SameData(st, end.value)
            && end.value.registered == st.registered + {x} && end.value.vector == st.vector + [x]
            && forall y: nat :: end.value.phase(y) == if y == x then Live else st.phase(y)
  {
    hide Step, Steps;
    Registers(st, t, x, a);
    var s1 := Step(st, t, a).value;
    var s2 := Step(s1, t, a).value;
    PutsInVector(s2, t, x, a);
    var s3 := Step(s2, t, a).value;
    OneStep(st, t, a, 3);
    OneStep(s1, t, a, 2);
    OneStep(s2, t, a, 1);
    OneStep(s3, t, a, 0);
    NoSteps(Step(s3, t, a).value, t, a);
  }

  // ---------- the capture thread and deletions ----------

  function BlocksOf(q: seq<Node>): set<nat> { set i | 0 <= i < |q| :: q[i].block }

  /** The queue of `x` went to the handler, and its blocks to the pool; other sessions are as before. */
  ghost predicate Handled(a: State, b: State, x: nat) {
    && b.queue(x) == [] && b.handled(x) == a.handled(x) + PacketsOf(a.queue(x)) && b.dropped(x) == a.dropped(x)
    && b.free == a.free + BlocksOf(a.queue(x)) && (forall y: nat :: b.pushed(y) == a.pushed(y))
    && forall y: nat :: y != x ==>
         b.queue(y) == a.queue(y) && b.handled(y) == a.handled(y) && b.dropped(y) == a.dropped(y)
  }

  /** The same, but dropped. */
  ghost predicate Dropped(a: State, b: State, x: nat) {
    && b.queue(x) == [] && b.dropped(x) == a.dropped(x) + PacketsOf(a.queue(x)) && b.handled(x) == a.handled(x)
    && b.free == a.free + BlocksOf(a.queue(x)) && (forall y: nat :: b.pushed(y) == a.pushed(y))
    && forall y: nat :: y != x ==>
         b.queue(y) == a.queue(y) && b.handled(y) == a.handled(y) && b.dropped(y) == a.dropped(y)
  }

  /** The first node of the queue of `x` was handled (or dropped). */
  ghost predicate TookFirst(a: State, b: State, t: nat, x: nat, handled: bool)
    requires a.queue(x) != []
  {
    var node := a.queue(x)[0];
    && OthersStay(a, b, t) && SameLocks(a, b) && SameSessions(a, b) && b.pc(t) == a.pc(t)
    && b.queue(x) == a.queue(x)[1..] && b.free == a.free + {node.block}
    && b.handled(x) == (if handled then a.handled(x) + [node.packet] else a.handled(x))
    && b.dropped(x) == (if handled then a.dropped(x) else a.dropped(x) + [node.packet])
    && (forall y: nat :: b.pushed(y) == a.pushed(y))
    && forall y: nat :: y != x ==>
         b.queue(y) == a.queue(y) && b.handled(y) == a.handled(y) && b.dropped(y) == a.dropped(y)
  }

  lemma TakesFirst(st: State, t: nat, i: nat, x: nat, a: Action)
    requires (st.pc(t) == Drain(i, x) || st.pc(t) == DelDrain(x)) && st.queue(x) != []
    ensures var s1 := Step(st, t, a);
            && s1.Some? && s1.value.pc(t) == (if st.pc(t).Drain? then Handling(i, x, st.queue(x)[0])
                                              else DelNode(x, st.queue(x)[0]))
            && OthersStay(st, s1.value, t) && SameLocks(st, s1.value) && SameSessions(st, s1.value)
            && NothingTaken(st, s1.value) && s1.value.free == st.free && s1.value.queue(x) == st.queue(x)[1..]
            && (forall y: nat :: s1.value.pushed(y) == st.pushed(y))
            && forall y: nat :: y != x ==> s1.value.queue(y) == st.queue(y)
  {
  }

  lemma PutsAway(st: State, t: nat, i: nat, x: nat, node: Node, a: Action)
    requires st.pc(t) == Handling(i, x, node) || st.pc(t) == DelNode(x, node)
    ensures var s, handled := Step(st, t, a), st.pc(t).Handling?;
            && s.Some? && s.value.pc(t) == (if handled then Drain(i, x) else DelDrain(x))
            && OthersStay(st, s.value, t) && SameLocks(st, s.value) && SameSessions(st, s.value)
            && s.value.free == st.free + {node.block}
            && (forall y: nat :: s.value.queue(y) == st.queue(y) && s.value.pushed(y) == st.pushed(y))
            && s.value.handled(x) == (if handled then st.handled(x) + [node.packet] else st.handled(x))
            && s.value.dropped(x) == (if handled then st.dropped(x) else st.dropped(x) + [node.packet])
            && forall y: nat :: y != x ==> s.value.handled(y) == st.handled(y) && s.value.dropped(y) == st.dropped(y)
  {
  }

  lemma FirstAlone(st: State, t: nat, i: nat, x: nat, a: Action)
    requires (st.pc(t) == Drain(i, x) || st.pc(t) == DelDrain(x)) && st.queue(x) != []
    ensures var end := Steps(st, t, a, 2); end.Some? && TookFirst(st, end.value, t, x, st.pc(t).Drain?)
  {
    hide Step, Steps;
    TakesFirst(st, t, i, x, a);
    var s1 := Step(st, t, a).value;
    PutsAway(s1, t, i, x, st.queue(x)[0], a);
    OneStep(st, t, a, 1);
    OneStep(s1, t, a, 0);
    NoSteps(Step(s1, t, a).value, t, a);
  }

  lemma DrainedCons(q: seq<Node>)
    requires q != []
    ensures PacketsOf(q) == [q[0].packet] + PacketsOf(q[1..]) && BlocksOf(q) == {q[0].block} + BlocksOf(q[1..])
  {
    assert forall b: nat :: b in BlocksOf(q) <==> b == q[0].block || b in BlocksOf(q[1..]) by {
      forall b: nat | b in BlocksOf(q) ensures b == q[0].block || b in BlocksOf(q[1..]) {
        var i :| 0 <= i < |q| && q[i].block == b;
        if i > 0 { assert q[1..][i - 1].block == b; }
      }
      forall b: nat | b in BlocksOf(q[1..]) ensures b in BlocksOf(q) {
        var i :| 0 <= i < |q[1..]| && q[1..][i].block == b;
        assert q[i + 1].block == b;
      }
    }
  }

  lemma JoinHandled(a: State, b: State, c: State, t: nat, x: nat)
    requires a.queue(x) != [] && TookFirst(a, b, t, x, true) && Handled(b, c, x)
    ensures Handled(a, c, x)
  {
    hide PacketsOf, BlocksOf, OthersStay, SameLocks, SameSessions;
    var q := a.queue(x);
    DrainedCons(q);
    assert (a.handled(x) + [q[0].packet]) + PacketsOf(q[1..]) == a.handled(x) + ([q[0].packet] + PacketsOf(q[1..]));
  }

  lemma JoinDropped(a: State, b: State, c: State, t: nat, x: nat)
    requires a.queue(x) != [] && TookFirst(a, b, t, x, false) && Dropped(b, c, x)
    ensures Dropped(a, c, x)
  {
    hide PacketsOf, BlocksOf, OthersStay, SameLocks, SameSessions;
    var q := a.queue(x);
    DrainedCons(q);
    assert (a.dropped(x) + [q[0].packet]) + PacketsOf(q[1..]) == a.dropped(x) + ([q[0].packet] + PacketsOf(q[1..]));
  }

  lemma NothingQueued(st: State, x: nat)
    requires st.queue(x) == []
    ensures Handled(st, st, x) && Dropped(st, st, x)
  {
    assert PacketsOf([]) == [] && BlocksOf([]) == {};
    assert st.handled(x) + [] == st.handled(x) && st.dropped(x) + [] == st.dropped(x);
  }

  /** Two steps a node empty the list, in order. */
  lemma {:induction false} EmptiesList(st: State, t: nat, i: nat, x: nat, a: Action)
    requires st.pc(t) == Drain(i, x) || st.pc(t) == DelDrain(x)
    ensures var end := Steps(st, t, a, 2 * |st.queue(x)|);
            && end.Some? && end.value.pc(t) == st.pc(t) && OthersStay(st, end.value, t) && SameLocks(st, end.value)
            && SameSessions(st, end.value)
            && if st.pc(t).Drain? then Handled(st, end.value, x) else Dropped(st, end.value, x)
    decreases |st.queue(x)|
  {
    hide Step, Steps, Handled, Dropped;
    if st.queue(x) == [] {
      NoSteps(st, t, a);
      NothingQueued(st, x);
    } else {
      FirstAlone(st, t, i, x, a);
      var s := Steps(st, t, a, 2).value;
      EmptiesList(s, t, i, x, a);
      StepsJoin(st, t, a, 2, 2 * |s.queue(x)|);
      var end := Steps(s, t, a, 2 * |s.queue(x)|).value;
      if st.pc(t).Drain? {
        JoinHandled(st, s, end, t, x);
      } else {
        JoinDropped(st, s, end, t, x);
      }
    }
  }

  lemma EntersList(st: State, t: nat, i: nat, a: Action)
    requires st.pc(t) == Scan(i) && i < |st.vector| && st.listLock(st.vector[i]) == None
    ensures var s, x := Step(st, t, a), st.vector[i];
            && s.Some? && s.value.pc(t) == Drain(i, x) && OthersStay(st, s.value, t)
            && SameData(st, s.value) && SameSessions(st, s.value)
            && s.value.mapLock == st.mapLock && OtherLists(st, s.value, x)
  {
  }

  lemma LeavesList(st: State, t: nat, i: nat, x: nat, a: Action)
    requires st.pc(t) == Drain(i, x) && st.queue(x) == []
    ensures var s := Step(st, t, a);
            && s.Some? && s.value.pc(t) == Scan(i + 1) && OthersStay(st, s.value, t)
            && SameData(st, s.value) && SameSessions(st, s.value)
            && s.value.mapLock == st.mapLock && OtherLists(st, s.value, x) && s.value.listLock(x) == None
  {
  }

  /** One session of a pass. */
  lemma SessionAlone(st: State, t: nat, i: nat, a: Action)
    requires st.pc(t) == Scan(i) && i < |st.vector| && st.listLock(st.vector[i]) == None
    ensures var x := st.vector[i];
            var end := Steps(st, t, a, 2 + 2 * |st.queue(x)|);
            && end.Some? && end.value.pc(t) == Scan(i + 1) && OthersStay(st, end.value, t)
            && SameLocks(st, end.value) && SameSessions(st, end.value) && Handled(st, end.value, x)
  {
    hide Step, Steps, PacketsOf, BlocksOf;
    var x, n := st.vector[i], 2 * |st.queue(st.vector[i])|;
    EntersList(st, t, i, a);
    var s1 := Step(st, t, a).value;
    EmptiesList(s1, t, i, x, a);
    var s2 := Steps(s1, t, a, n).value;
    LeavesList(s2, t, i, x, a);
    OneStep(st, t, a, 1 + n);
    StepsJoin(s1, t, a, n, 1);
    OneStep(s2, t, a, 0);
    NoSteps(Step(s2, t, a).value, t, a);
  }

  /** Each of the sessions `xs` was handled to its end, all others are as before. */
  ghost predicate AllHandled(a: State, b: State, xs: seq<nat>) {
    && (forall x: nat :: x in xs ==>
          b.queue(x) == [] && b.handled(x) == a.handled(x) + PacketsOf(a.queue(x)))
    && (forall x: nat :: x !in xs ==> b.queue(x) == a.queue(x) && b.handled(x) == a.handled(x))
    && (forall x: nat :: b.dropped(x) == a.dropped(x) && b.pushed(x) == a.pushed(x))
    && a.free <= b.free
  }

  lemma HandledCons(a: State, b: State, c: State, x: nat, xs: seq<nat>)
    requires Handled(a, b, x) && AllHandled(b, c, xs)
    ensures AllHandled(a, c, [x] + xs)
  {
    hide PacketsOf, BlocksOf;
    NoPackets();
    forall y: nat | y in [x] + xs
      ensures c.queue(y) == [] && c.handled(y) == a.handled(y) + PacketsOf(a.queue(y))
    {
      if y == x {
        assert b.handled(x) + [] == b.handled(x);
      }
    }
  }

  lemma NoPackets()
    ensures PacketsOf([]) == []
  {
  }

  lemma PassEnds(st: State, t: nat, i: nat, a: Action)
    requires st.pc(t) == Scan(i) && i >= |st.vector|
    ensures var s := Step(st, t, a);
            && s.Some? && s.value.pc(t) == Polling && s.value.vectorLock == None && OthersStay(st, s.value, t)
            && SameData(st, s.value) && SameSessions(st, s.value)
            && s.value.mapLock == st.mapLock && forall y: nat :: s.value.listLock(y) == st.listLock(y)
  {
  }

  lemma NothingHandled(a: State, b: State)
    requires SameData(a, b)
    ensures AllHandled(a, b, [])
  {
  }

  /** The rest of a pass. */
  lemma {:induction false} PassFrom(st: State, t: nat, i: nat, a: Action) returns (n: nat)
    requires st.pc(t) == Scan(i) && i <= |st.vector| && forall x :: x in st.vector ==> st.listLock(x) == None
    ensures var end := Steps(st, t, a, n);
            && end.Some? && end.value.pc(t) == Polling && OthersStay(st, end.value, t) && end.value.vectorLock == None
            && end.value.mapLock == st.mapLock && (forall y: nat :: end.value.listLock(y) == st.listLock(y))
            && SameSessions(st, end.value) && AllHandled(st, end.value, st.vector[i..])
    decreases |st.vector| - i
  {
    hide Step, Steps, Handled, AllHandled, SameData;
    if i == |st.vector| {
      PassEnds(st, t, i, a);
      n := 1;
      OneStep(st, t, a, 0);
      NoSteps(Step(st, t, a).value, t, a);
      NothingHandled(st, Step(st, t, a).value);
      assert st.vector[i..] == [];
    } else {
      var x := st.vector[i];
      SessionAlone(st, t, i, a);
      var k := 2 + 2 * |st.queue(x)|;
      var s := Steps(st, t, a, k).value;
      var m := PassFrom(s, t, i + 1, a);
      n := k + m;
      StepsJoin(st, t, a, k, m);
      HandledCons(st, s, Steps(s, t, a, m).value, x, st.vector[i + 1..]);
      assert st.vector[i..] == [x] + st.vector[i + 1..];
    }
  }

  lemma TakesVector(st: State, t: nat, a: Action)
    requires st.pc(t) == Polling && st.vectorLock == None
    ensures var s := Step(st, t, a);
            && s.Some? && s.value.pc(t) == Scan(0) && OthersStay(st, s.value, t)
            && SameData(st, s.value) && SameSessions(st, s.value)
            && s.value.mapLock == st.mapLock && forall y: nat :: s.value.listLock(y) == st.listLock(y)
  {
  }

  /** Main result: a pass of the capture thread ends, and hands every packet that waits on any session of the vector
      to the handler, in order; then all those lists are empty, and nothing was dropped. */
  lemma PassHandlesEverything(st: State, t: nat, a: Action) returns (n: nat)
    requires st.pc(t) == Polling && st.vectorLock == None && forall x :: x in st.vector ==> st.listLock(x) == None
    ensures Run(st, Moves(t, a, n)).Some?
    ensures var end := Run(st, Moves(t, a, n)).value;
            && end.pc(t) == Polling && OthersStay(st, end, t) && SameLocks(st, end) && SameSessions(st, end)
            && (forall x: nat :: x in st.vector ==>
                  end.queue(x) == [] && end.handled(x) == st.handled(x) + PacketsOf(st.queue(x)))
            && (forall x: nat :: x !in st.vector ==> end.queue(x) == st.queue(x) && end.handled(x) == st.handled(x))
            && (forall x: nat :: end.dropped(x) == st.dropped(x) && end.pushed(x) == st.pushed(x))
  {
    hide Step, Steps, Run, PacketsOf;
    TakesVector(st, t, a);
    var s := Step(st, t, a).value;
    var m := PassFrom(s, t, 0, a);
    n := 1 + m;
    OneStep(st, t, a, m);
    StepsAreRun(st, t, a, n);
    assert s.vector[0..] == st.vector;
  }

  // ---------- a deletion ----------

  lemma EntersDeleted(st: State, t: nat, x: nat, a: Action)
    requires st.pc(t) == WantVector(x) && st.vectorLock == None && x in st.vector && st.listLock(x) == None
    ensures var s1 := Step(st, t, a);
            && s1.Some? && var s2 := Step(s1.value, t, a);
               && s2.Some? && s2.value.pc(t) == DelDrain(x) && OthersStay(st, s2.value, t)
               && SameData(st, s2.value) && SameSessions(st, s2.value)
               && s2.value.mapLock == st.mapLock && forall y: nat :: y != x ==> s2.value.listLock(y) == st.listLock(y)
  {
  }

  lemma LeavesDeleted(st: State, t: nat, x: nat, a: Action)
    requires st.pc(t) == DelDrain(x) && st.queue(x) == []
    ensures var s1 := Step(st, t, a);
            && s1.Some? && var s2 := Step(s1.value, t, a);
               && s2.Some? && s2.value.pc(t) == Idle && OthersStay(st, s2.value, t) && SameData(st, s2.value)
               && s2.value.vector == Without(st.vector, x) && s2.value.registered == st.registered
               && (forall y: nat :: s2.value.phase(y) == if y == x then Gone else st.phase(y))
               && s2.value.mapLock == st.mapLock && s2.value.vectorLock == None && s2.value.listLock(x) == None
               && forall y: nat :: y != x ==> s2.value.listLock(y) == st.listLock(y)
  {
  }

  /** A deletion drops what waits on its session, gives the blocks back, and takes the session out of the vector. */
  lemma DeleteAlone(st: State, t: nat, x: nat, a: Action) returns (n: nat)
    requires st.pc(t) == WantVector(x) && st.vectorLock == None && x in st.vector && st.listLock(x) == None
    ensures Run(st, Moves(t, a, n)).Some?
    ensures var end := Run(st, Moves(t, a, n)).value;
            && end.pc(t) == Idle && OthersStay(st, end, t) && SameLocks(st, end) && Dropped(st, end, x)
            && end.vector == Without(st.vector, x) && end.registered == st.registered
            && forall y: nat :: end.phase(y) == if y == x then Gone else st.phase(y)
  {
    hide Step, Steps, Run, PacketsOf, BlocksOf;
    EntersDeleted(st, t, x, a);
    var s1 := Step(st, t, a).value;
    var s2 := Step(s1, t, a).value;
    var k := 2 * |s2.queue(x)|;
    EmptiesList(s2, t, 0, x, a);
    var s3 := Steps(s2, t, a, k).value;
    LeavesDeleted(s3, t, x, a);
    var s4 := Step(s3, t, a).value;
    n := 2 + k + 2;
    OneStep(st, t, a, 1 + k + 2);
    OneStep(s1, t, a, k + 2);
    StepsJoin(s2, t, a, k, 2);
    OneStep(s3, t, a, 1);
    OneStep(s4, t, a, 0);
    NoSteps(Step(s4, t, a).value, t, a);
    StepsAreRun(st, t, a, n);
  }
}

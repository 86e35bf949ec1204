/**
 The hand-off between receiving threads and the capture thread: ReceiverCenter::onRTPData and the socket handlers take
 blocks from a pool and push them on a session's list; CaptureCenter::run drains the lists of all sessions, and a
 deletion empties one. Every step below is one lock operation or one effect under locks, so runs are interleavings.

 Producers and deletions overlap freely. The one thing left to the caller is that no push on a session follows its
 deletion, since nothing ever takes a deleted session out of the session map: a thread that would lock the list of a
 session that has left the vector does not get it here.
 */
module HandOff {
  import opened Bytes

  /** A queued buffer and the packet in it. */
  datatype Node = Node(block: nat, packet: nat)

  /** Where a thread is. The comment names the locks it holds: the session map, the session vector, a session's list. */
  datatype PC =
    | Idle
    // onRTPData
    | WantMap(x: nat, p: nat)
    | InMap(x: nat, p: nat)                      // map
    | MapBlock(x: nat, p: nat, b: nat)           // map
    | MapPush(x: nat, p: nat, b: nat)            // map, list x
    | MapPushed(x: nat)                          // map, list x
    | LeaveMap(x: nat)                           // map
    // onAudioSocketReadable and onVideoSocketReadable
    | Sock(x: nat, p: nat)
    | SockBlock(x: nat, p: nat, b: nat)
    | SockPush(x: nat, p: nat, b: nat)           // list x
    | SockPushed(x: nat)                         // list x
    // CaptureCenter::run
    | Polling
    | Scan(i: nat)                               // vector
    | Drain(i: nat, x: nat)                      // vector, list x
    | Handling(i: nat, x: nat, node: Node)       // vector, list x
    // CaptureCenter::delCaptureRtpSession
    | WantVector(x: nat)
    | Search(x: nat)                             // vector
    | DelDrain(x: nat)                           // vector, list x
    | DelNode(x: nat, node: Node)                // vector, list x
    | DelLeave(x: nat)                           // vector
    // addCaptureRtpSession of both centers
    | AddMap(x: nat)
    | AddInMap(x: nat)                           // map
    | AddVector(x: nat)
    | AddInVector(x: nat)                        // vector

  datatype Phase = Fresh | Adding | Live | Deleting | Gone

  /** Who has a block; kept beside the program state to state the partition. */
  datatype Owner = Free | Hand(t: nat) | Queued(x: nat)

  datatype State = State(
    pool: set<nat>, free: set<nat>, got: nat -> int, released: nat -> int, owner: nat -> Owner,
    queue: nat -> seq<Node>, pushed: nat -> seq<nat>, handled: nat -> seq<nat>, dropped: nat -> seq<nat>,
    phase: nat -> Phase, registered: set<nat>, vector: seq<nat>,
    mapLock: Option<nat>, vectorLock: Option<nat>, listLock: nat -> Option<nat>, pc: nat -> PC)

  function Put<T>(f: nat -> T, x: nat, v: T): (r: nat -> T)
    ensures forall y: nat :: r(y) == if y == x then v else f(y)
  {
    (y: nat) => if y == x then v else f(y)
  }

  /** No session, nothing queued, all blocks free, thread 0 is the capture thread. */
  function Init(pool: set<nat>): State {
    State(pool, pool, _ => 0, _ => 0, _ => Free, _ => [], _ => [], _ => [], _ => [], _ => Fresh, {}, [], None, None,
          _ => None, t => if t == 0 then Polling else Idle)
  }

  // ---------- what a place means ----------

  predicate HoldsMap(pc: PC) {
    pc.InMap? || pc.MapBlock? || pc.MapPush? || pc.MapPushed? || pc.LeaveMap? || pc.AddInMap?
  }

  predicate HoldsVector(pc: PC) {
    pc.Scan? || pc.Drain? || pc.Handling? || pc.Search? || pc.DelDrain? || pc.DelNode? || pc.DelLeave?
    || pc.AddInVector?
  }

  function HeldList(pc: PC): Option<nat> {
    if pc.MapPush? || pc.MapPushed? || pc.SockPush? || pc.SockPushed? || pc.Drain? || pc.Handling? || pc.DelDrain?
       || pc.DelNode? then Some(pc.x)
    else None
  }

  function InHand(pc: PC): Option<nat> {
    if pc.MapBlock? || pc.MapPush? || pc.SockBlock? || pc.SockPush? then Some(pc.b)
    else if pc.Handling? || pc.DelNode? then Some(pc.node.block)
    else None
  }

  /** The places of onRTPData. */
  predicate OnMap(pc: PC) {
    pc.WantMap? || pc.InMap? || pc.MapBlock? || pc.MapPush? || pc.MapPushed? || pc.LeaveMap?
  }

  /** The session a producer works on. */
  function Producing(pc: PC): Option<nat> {
    if pc.WantMap? || pc.InMap? || pc.MapBlock? || pc.MapPush? || pc.MapPushed? || pc.LeaveMap? || pc.Sock?
       || pc.SockBlock?
       || pc.SockPush? || pc.SockPushed? then Some(pc.x)
    else None
  }

  function DeletingOf(pc: PC): Option<nat> {
    if pc.WantVector? || pc.Search? || pc.DelDrain? || pc.DelNode? || pc.DelLeave? then Some(pc.x) else None
  }

  function AddingOf(pc: PC): Option<nat> {
    if pc.AddMap? || pc.AddInMap? || pc.AddVector? || pc.AddInVector? then Some(pc.x) else None
  }

  // ---------- steps ----------

  datatype Action =
    | BeginData(x: nat, p: nat)
    | BeginSocket(x: nat, p: nat)
    | BeginAdd(x: nat)
    | BeginDelete(x: nat)
    | Go(block: nat)
    | TooLong

  function At(st: State, t: nat, pc: PC): State { st.(pc := Put(st.pc, t, pc)) }

  /** The pool gives block `b` to `t`. */
  function Get(st: State, t: nat, b: nat): State {
    st.(free := st.free - {b}, got := Put(st.got, b, st.got(b) + 1), owner := Put(st.owner, b, Hand(t)))
  }

  /** The pool gets block `b` back. */
  function Release(st: State, b: nat): State {
    st.(free := st.free + {b}, released := Put(st.released, b, st.released(b) + 1), owner := Put(st.owner, b, Free))
  }

  function Push(st: State, x: nat, node: Node): State {
    st.(queue := Put(st.queue, x, st.queue(x) + [node]), pushed := Put(st.pushed, x, st.pushed(x) + [node.packet]),
        owner := Put(st.owner, node.block, Queued(x)))
  }

  function Pop(st: State, t: nat, x: nat): State
    requires st.queue(x) != []
  {
    st.(queue := Put(st.queue, x, st.queue(x)[1..]), owner := Put(st.owner, st.queue(x)[0].block, Hand(t)))
  }

  function LockList(st: State, t: nat, x: nat): State { st.(listLock := Put(st.listLock, x, Some(t))) }

  function UnlockList(st: State, x: nat): State { st.(listLock := Put(st.listLock, x, None)) }

  /** `v` without `x`. */
  function Without(v: seq<nat>, x: nat): (r: seq<nat>)
    ensures forall y :: y in r <==> y in v && y != x
  {
    if v == [] then [] else (if v[0] == x then [] else [v[0]]) + Without(v[1..], x)
  }

  /** A deletion has taken the session out of the vector. */
  predicate Left(st: State, x: nat) { st.phase(x) == Gone || (st.phase(x) == Deleting && x !in st.vector) }

  /** An operation starts: data may come for any session, sockets are read from the moment a session is added. */
  function Begin(st: State, t: nat, a: Action): Option<State> {
    match a
    case BeginData(x, p) => Some(At(st, t, WantMap(x, p)))
    case BeginSocket(x, p) => if st.phase(x) != Fresh then Some(At(st, t, Sock(x, p))) else None
    case BeginAdd(x) =>
      if st.phase(x) == Fresh then Some(At(st.(phase := Put(st.phase, x, Adding)), t, AddMap(x))) else None
    case BeginDelete(x) =>
      if st.phase(x) == Live then Some(At(st.(phase := Put(st.phase, x, Deleting)), t, WantVector(x))) else None
    case _ => None
  }

  /** onRTPData. An empty pool is an exception, which gives the locks back. */
  function OnRtpData(st: State, t: nat, pc: PC, a: Action): Option<State> {
    match pc
    case WantMap(x, p) => if st.mapLock == None then Some(At(st.(mapLock := Some(t)), t, InMap(x, p))) else None
    case InMap(x, p) =>
      if x !in st.registered || a == TooLong || st.free == {} then Some(At(st, t, LeaveMap(x)))
      else if a.Go? && a.block in st.free then Some(At(Get(st, t, a.block), t, MapBlock(x, p, a.block)))
      else None
    case MapBlock(x, p, b) =>
      if st.listLock(x) == None && !Left(st, x) then Some(At(LockList(st, t, x), t, MapPush(x, p, b))) else None
    case MapPush(x, p, b) => Some(At(Push(st, x, Node(b, p)), t, MapPushed(x)))
    case MapPushed(x) => Some(At(UnlockList(st, x), t, LeaveMap(x)))
    case LeaveMap(x) => Some(At(st.(mapLock := None), t, Idle))
    case _ => None
  }

  /** The socket handlers, which do not look at the session map. */
  function OnSocket(st: State, t: nat, pc: PC, a: Action): Option<State> {
    match pc
    case Sock(x, p) =>
      if st.free == {} then Some(At(st, t, Idle))
      else if a.Go? && a.block in st.free then Some(At(Get(st, t, a.block), t, SockBlock(x, p, a.block)))
      else None
    case SockBlock(x, p, b) =>
      if st.listLock(x) == None && !Left(st, x) then Some(At(LockList(st, t, x), t, SockPush(x, p, b))) else None
    case SockPush(x, p, b) => Some(At(Push(st, x, Node(b, p)), t, SockPushed(x)))
    case SockPushed(x) => Some(At(UnlockList(st, x), t, Idle))
    case _ => None
  }

  /** The capture thread. */
  function Consume(st: State, t: nat, pc: PC): Option<State> {
    match pc
    case Polling => if st.vectorLock == None then Some(At(st.(vectorLock := Some(t)), t, Scan(0))) else None
    case Scan(i) =>
      if i >= |st.vector| then Some(At(st.(vectorLock := None), t, Polling))
      else if st.listLock(st.vector[i]) == None
      then Some(At(LockList(st, t, st.vector[i]), t, Drain(i, st.vector[i]))) else None
    case Drain(i, x) =>
      if st.queue(x) == [] then Some(At(UnlockList(st, x), t, Scan(i + 1)))
      else Some(At(Pop(st, t, x), t, Handling(i, x, st.queue(x)[0])))
    case Handling(i, x, node) =>
      Some(At(Release(st.(handled := Put(st.handled, x, st.handled(x) + [node.packet])), node.block), t, Drain(i, x)))
    case _ => None
  }

  /** A deletion. */
  function Delete(st: State, t: nat, pc: PC): Option<State> {
    match pc
    case WantVector(x) => if st.vectorLock == None then Some(At(st.(vectorLock := Some(t)), t, Search(x))) else None
    case Search(x) =>
      if x !in st.vector then Some(At(st, t, DelLeave(x)))
      else if st.listLock(x) == None then Some(At(LockList(st, t, x), t, DelDrain(x))) else None
    case DelDrain(x) =>
      if st.queue(x) == [] then Some(At(UnlockList(st.(vector := Without(st.vector, x)), x), t, DelLeave(x)))
      else Some(At(Pop(st, t, x), t, DelNode(x, st.queue(x)[0])))
    case DelNode(x, node) =>
      Some(At(Release(st.(dropped := Put(st.dropped, x, st.dropped(x) + [node.packet])), node.block), t, DelDrain(x)))
    case DelLeave(x) => Some(At(st.(vectorLock := None, phase := Put(st.phase, x, Gone)), t, Idle))
    case _ => None
  }

  /** A new session. */
  function Add(st: State, t: nat, pc: PC): Option<State> {
    match pc
    case AddMap(x) => if st.mapLock == None then Some(At(st.(mapLock := Some(t)), t, AddInMap(x))) else None
    case AddInMap(x) => Some(At(st.(registered := st.registered + {x}, mapLock := None), t, AddVector(x)))
    case AddVector(x) => if st.vectorLock == None then Some(At(st.(vectorLock := Some(t)), t, AddInVector(x))) else None
    case AddInVector(x) =>
      Some(At(st.(vector := st.vector + [x], phase := Put(st.phase, x, Live), vectorLock := None), t, Idle))
    case _ => None
  }

  /** One step of thread `t`; None when it has to wait. */
  function Step(st: State, t: nat, a: Action): Option<State> {
    var pc := st.pc(t);
    if pc.Idle? then Begin(st, t, a)
    else if OnMap(pc) then OnRtpData(st, t, pc, a)
    else if Producing(pc).Some? then OnSocket(st, t, pc, a)
    else if DeletingOf(pc).Some? then Delete(st, t, pc)
    else if AddingOf(pc).Some? then Add(st, t, pc)
    else Consume(st, t, pc)
  }

  datatype Move = Move(t: nat, a: Action)

  function Run(st: State, moves: seq<Move>): Option<State>
    decreases |moves|
  {
    if moves == [] then Some(st)
    else
      var next := Step(st, moves[0].t, moves[0].a);
      if next == None then None else Run(next.value, moves[1..])
  }

  // ---------- invariants ----------

  /** A lock is held exactly by the thread whose place says so. */
  ghost predicate Locks(st: State) {
    && (forall t: nat :: HoldsMap(st.pc(t)) <==> st.mapLock == Some(t))
    && (forall t: nat :: HoldsVector(st.pc(t)) <==> st.vectorLock == Some(t))
    && (forall t: nat, x: nat :: HeldList(st.pc(t)) == Some(x) <==> st.listLock(x) == Some(t))
  }

  /** Each block of the pool is free, in one hand or in one list, once; and it was given out as often as it came back,
      or once more while it is not free. */
  ghost predicate Blocks(st: State) {
    && (forall b: nat :: b in st.free <==> b in st.pool && st.owner(b) == Free)
    && (forall b: nat :: st.owner(b) != Free ==> b in st.pool)
    && (forall t: nat, b: nat :: InHand(st.pc(t)) == Some(b) <==> st.owner(b) == Hand(t))
    && (forall x: nat, i: nat :: i < |st.queue(x)| ==> st.owner(st.queue(x)[i].block) == Queued(x))
    && (forall x: nat, i: nat, j: nat :: i < j < |st.queue(x)| ==> st.queue(x)[i].block != st.queue(x)[j].block)
    && (forall b: nat :: st.owner(b).Queued? ==> HasBlock(st.queue(st.owner(b).x), b))
    && (forall b: nat :: st.got(b) == st.released(b) + if st.owner(b) == Free then 0 else 1)
  }

  predicate HasBlock(q: seq<Node>, b: nat) { exists i :: 0 <= i < |q| && q[i].block == b }

  /** The thread stands at a list of a session in the vector. */
  predicate AtList(pc: PC) { pc.Drain? || pc.Handling? || pc.DelDrain? || pc.DelNode? }

  /** The vector has each session once, all live and no deleted ones, and those at whose lists a thread stands. */
  ghost predicate VectorInv(st: State) {
    && (forall i: nat, j: nat :: i < j < |st.vector| ==> st.vector[i] != st.vector[j])
    && (forall x: nat :: x in st.vector ==> st.phase(x) == Live || st.phase(x) == Deleting)
    && (forall x: nat :: st.phase(x) == Live ==> x in st.vector)
    && (forall t: nat :: AtList(st.pc(t)) ==> st.pc(t).x in st.vector)
    && (forall t: nat :: st.pc(t).DelLeave? ==> st.pc(t).x !in st.vector)
  }

  /** Nobody adds or deletes a session in the wrong phase. */
  ghost predicate Roles(st: State) {
    && (forall t: nat, x: nat :: DeletingOf(st.pc(t)) == Some(x) ==> st.phase(x) == Deleting)
    && (forall t: nat, x: nat :: AddingOf(st.pc(t)) == Some(x) ==> st.phase(x) == Adding)
  }

  /** One adder and one deleter for each session. */
  ghost predicate Unique(st: State) {
    && (forall t: nat, u: nat, x: nat :: DeletingOf(st.pc(t)) == Some(x) && DeletingOf(st.pc(u)) == Some(x) ==> t == u)
    && (forall t: nat, u: nat, x: nat :: AddingOf(st.pc(t)) == Some(x) && AddingOf(st.pc(u)) == Some(x) ==> t == u)
  }

  ghost predicate Sessions(st: State) { VectorInv(st) && Roles(st) && Unique(st) }

  function PacketsOf(q: seq<Node>): (r: seq<nat>)
    ensures |r| == |q|
  {
    seq(|q|, i requires 0 <= i < |q| => q[i].packet)
  }

  /** The packet of list `x` that a thread has taken out of it. */
  function TakenBy(pc: PC, x: nat): seq<nat> {
    if (pc.Handling? || pc.DelNode?) && pc.x == x then [pc.node.packet] else []
  }

  /** Only the holder of the vector can have taken one. */
  function Taken(st: State, x: nat): seq<nat> {
    if st.vectorLock == None then [] else TakenBy(st.pc(st.vectorLock.value), x)
  }

  predicate DeletingAt(pc: PC, x: nat) { (pc.DelDrain? || pc.DelNode?) && pc.x == x }

  /** A deletion of `x` is at its list. */
  predicate DelAt(st: State, x: nat) { st.vectorLock.Some? && DeletingAt(st.pc(st.vectorLock.value), x) }

  /** Nothing is lost, doubled or reordered: what was pushed was handled, then dropped by a deletion, then waits. */
  predicate Balanced(st: State, x: nat) {
    st.pushed(x) == st.handled(x) + st.dropped(x) + Taken(st, x) + PacketsOf(st.queue(x))
  }

  /** Only a deletion drops packets. */
  ghost predicate DropsOnlyDeleted(st: State) {
    && (forall x: nat :: st.dropped(x) != [] ==> x !in st.vector || DelAt(st, x))
    && (forall x: nat :: st.dropped(x) != [] ==> st.phase(x) == Deleting || st.phase(x) == Gone)
  }

  ghost predicate Order(st: State) { (forall x: nat :: Balanced(st, x)) && DropsOnlyDeleted(st) }

  /** A session that has left the vector has an empty list that nobody holds. */
  ghost predicate Lists(st: State) {
    && (forall t: nat, x: nat :: HeldList(st.pc(t)) == Some(x) ==> !Left(st, x))
    && (forall x: nat :: Left(st, x) ==> st.queue(x) == [])
  }

  ghost predicate Inv(st: State) { Locks(st) && Blocks(st) && Sessions(st) && Lists(st) && Order(st) }

  lemma InitInv(pool: set<nat>)
    ensures Inv(Init(pool))
  {
    hide Locks, Blocks, Sessions, Lists, Order;
    InitLocks(pool);
    InitBlocks(pool);
    InitSessions(pool);
    InitLists(pool);
    InitOrder(pool);
  }

  lemma InitLists(pool: set<nat>)
    ensures Lists(Init(pool))
  {
  }

  lemma InitLocks(pool: set<nat>)
    ensures Locks(Init(pool))
  {
  }

  lemma InitBlocks(pool: set<nat>)
    ensures Blocks(Init(pool))
  {
  }

  lemma InitSessions(pool: set<nat>)
    ensures Sessions(Init(pool))
  {
    var st := Init(pool);
    assert forall t: nat :: st.pc(t) == Idle || st.pc(t) == Polling;
    hide Init;
    assert forall t: nat :: Producing(st.pc(t)) == None && DeletingOf(st.pc(t)) == None && AddingOf(st.pc(t)) == None;
  }

  lemma InitOrder(pool: set<nat>)
    ensures Order(Init(pool))
  {
    assert PacketsOf([]) == [];
  }

  // ---------- each step keeps the locks ----------

  /** Only thread `t` moves. */
  ghost predicate Moves(st: State, st': State, t: nat) { forall u: nat :: u != t ==> st'.pc(u) == st.pc(u) }

  /** A lock changes as the place of `t` does. */
  predicate LockMove(t: nat, before: bool, after: bool, lock: Option<nat>, lock': Option<nat>) {
    if before == after then lock' == lock else if after then lock == None && lock' == Some(t) else lock' == None
  }

  ghost predicate LocksMove(st: State, st': State, t: nat) {
    var pc, pc' := st.pc(t), st'.pc(t);
    && Moves(st, st', t)
    && LockMove(t, HoldsMap(pc), HoldsMap(pc'), st.mapLock, st'.mapLock)
    && LockMove(t, HoldsVector(pc), HoldsVector(pc'), st.vectorLock, st'.vectorLock)
    && forall x: nat :: LockMove(t, HeldList(pc) == Some(x), HeldList(pc') == Some(x), st.listLock(x), st'.listLock(x))
  }

  lemma LocksKept(st: State, st': State, t: nat)
    requires Locks(st) && LocksMove(st, st', t)
    ensures Locks(st')
  {
    hide HoldsMap, HoldsVector, HeldList;
  }

  lemma BeginLocks(st: State, t: nat, a: Action)
    requires st.pc(t).Idle? && Begin(st, t, a).Some?
    ensures LocksMove(st, Begin(st, t, a).value, t)
  {
    hide Put;
  }

  lemma RtpDataLocks(st: State, t: nat, a: Action)
    requires OnRtpData(st, t, st.pc(t), a).Some?
    ensures LocksMove(st, OnRtpData(st, t, st.pc(t), a).value, t)
  {
    hide Put;
  }

  lemma SocketLocks(st: State, t: nat, a: Action)
    requires OnSocket(st, t, st.pc(t), a).Some?
    ensures LocksMove(st, OnSocket(st, t, st.pc(t), a).value, t)
  {
    hide Put;
  }

  lemma ConsumeLocks(st: State, t: nat)
    requires Consume(st, t, st.pc(t)).Some?
    ensures LocksMove(st, Consume(st, t, st.pc(t)).value, t)
  {
    hide Put;
  }

  lemma DeleteLocks(st: State, t: nat)
    requires Delete(st, t, st.pc(t)).Some?
    ensures LocksMove(st, Delete(st, t, st.pc(t)).value, t)
  {
    hide Put;
  }

  lemma AddLocks(st: State, t: nat)
    requires Add(st, t, st.pc(t)).Some?
    ensures LocksMove(st, Add(st, t, st.pc(t)).value, t)
  {
    hide Put;
  }

  // ---------- each step keeps the blocks ----------

  ghost predicate SameBlocks(a: State, b: State) {
    a.pool == b.pool && a.free == b.free && a.got == b.got && a.released == b.released && a.owner == b.owner
    && a.queue == b.queue
  }

  lemma BlocksSame(st: State, st': State, t: nat)
    requires Blocks(st) && Moves(st, st', t) && SameBlocks(st', st) && InHand(st'.pc(t)) == InHand(st.pc(t))
    ensures Blocks(st')
  {
    hide InHand;
    assert forall u: nat :: InHand(st'.pc(u)) == InHand(st.pc(u));
  }

  lemma BlocksGet(st: State, st': State, t: nat, b: nat)
    requires Blocks(st) && Moves(st, st', t) && b in st.free && SameBlocks(st', Get(st, t, b))
    requires InHand(st.pc(t)) == None && InHand(st'.pc(t)) == Some(b)
    ensures Blocks(st')
  {
    hide InHand, Put, HasBlock;
    assert forall u: nat :: u != t ==> InHand(st'.pc(u)) == InHand(st.pc(u));
  }

  lemma BlocksRelease(st: State, st': State, t: nat, b: nat)
    requires Blocks(st) && Moves(st, st', t) && SameBlocks(st', Release(st, b))
    requires InHand(st.pc(t)) == Some(b) && InHand(st'.pc(t)) == None
    ensures Blocks(st') && b !in st.free
  {
    hide InHand, Put, HasBlock;
    assert forall u: nat :: u != t ==> InHand(st'.pc(u)) == InHand(st.pc(u));
  }

  lemma BlocksPush(st: State, st': State, t: nat, x: nat, node: Node)
    requires Blocks(st) && Moves(st, st', t) && SameBlocks(st', Push(st, x, node))
    requires InHand(st.pc(t)) == Some(node.block) && InHand(st'.pc(t)) == None
    ensures Blocks(st')
  {
    hide InHand, Put;
    assert forall u: nat :: u != t ==> InHand(st'.pc(u)) == InHand(st.pc(u));
    var q := st.queue(x);
    assert HasBlock(q + [node], node.block) by { assert (q + [node])[|q|] == node; }
    forall b: nat | st.owner(b).Queued? ensures HasBlock(st'.queue(st.owner(b).x), b) {
      if st.owner(b).x == x {
        var i :| 0 <= i < |q| && q[i].block == b;
        assert (q + [node])[i].block == b;
      }
    }
  }

  lemma BlocksPop(st: State, st': State, t: nat, x: nat)
    requires Blocks(st) && Moves(st, st', t) && st.queue(x) != [] && SameBlocks(st', Pop(st, t, x))
    requires InHand(st.pc(t)) == None && InHand(st'.pc(t)) == Some(st.queue(x)[0].block)
    ensures Blocks(st')
  {
    hide InHand, Put;
    assert forall u: nat :: u != t ==> InHand(st'.pc(u)) == InHand(st.pc(u));
    var q, b0 := st.queue(x), st.queue(x)[0].block;
    assert forall i: nat :: i < |q| - 1 ==> q[1..][i] == q[i + 1];
    forall b: nat | st'.owner(b).Queued? ensures HasBlock(st'.queue(st'.owner(b).x), b) {
      assert b != b0 && st.owner(b) == st'.owner(b);
      if st.owner(b).x == x {
        var i :| 0 <= i < |q| && q[i].block == b;
        assert q[1..][i - 1].block == b;
      }
    }
  }

  lemma BeginBlocks(st: State, t: nat, a: Action)
    requires Blocks(st) && st.pc(t).Idle? && Begin(st, t, a).Some?
    ensures Blocks(Begin(st, t, a).value)
  {
    hide Put, Blocks;
    BlocksSame(st, Begin(st, t, a).value, t);
  }

  lemma RtpDataBlocks(st: State, t: nat, a: Action)
    requires Blocks(st) && OnRtpData(st, t, st.pc(t), a).Some?
    ensures Blocks(OnRtpData(st, t, st.pc(t), a).value)
  {
    hide Put, Blocks;
    var pc, st' := st.pc(t), OnRtpData(st, t, st.pc(t), a).value;
    if pc.MapPush? {
      BlocksPush(st, st', t, pc.x, Node(pc.b, pc.p));
    } else if pc.InMap? && st'.pc(t).MapBlock? {
      BlocksGet(st, st', t, a.block);
    } else {
      BlocksSame(st, st', t);
    }
  }

  lemma SocketBlocks(st: State, t: nat, a: Action)
    requires Blocks(st) && OnSocket(st, t, st.pc(t), a).Some?
    ensures Blocks(OnSocket(st, t, st.pc(t), a).value)
  {
    hide Put, Blocks;
    var pc, st' := st.pc(t), OnSocket(st, t, st.pc(t), a).value;
    if pc.SockPush? {
      BlocksPush(st, st', t, pc.x, Node(pc.b, pc.p));
    } else if pc.Sock? && st'.pc(t).SockBlock? {
      BlocksGet(st, st', t, a.block);
    } else {
      BlocksSame(st, st', t);
    }
  }

  lemma ConsumeBlocks(st: State, t: nat)
    requires Blocks(st) && Consume(st, t, st.pc(t)).Some?
    ensures Blocks(Consume(st, t, st.pc(t)).value)
  {
    hide Put, Blocks;
    var pc, st' := st.pc(t), Consume(st, t, st.pc(t)).value;
    if pc.Drain? && st.queue(pc.x) != [] {
      BlocksPop(st, st', t, pc.x);
    } else if pc.Handling? {
      BlocksRelease(st, st', t, pc.node.block);
    } else {
      BlocksSame(st, st', t);
    }
  }

  lemma DeleteBlocks(st: State, t: nat)
    requires Blocks(st) && Delete(st, t, st.pc(t)).Some?
    ensures Blocks(Delete(st, t, st.pc(t)).value)
  {
    hide Put, Blocks;
    var pc, st' := st.pc(t), Delete(st, t, st.pc(t)).value;
    if pc.DelDrain? && st.queue(pc.x) != [] {
      BlocksPop(st, st', t, pc.x);
    } else if pc.DelNode? {
      BlocksRelease(st, st', t, pc.node.block);
    } else {
      BlocksSame(st, st', t);
    }
  }

  lemma AddBlocks(st: State, t: nat)
    requires Blocks(st) && Add(st, t, st.pc(t)).Some?
    ensures Blocks(Add(st, t, st.pc(t)).value)
  {
    hide Put, Blocks;
    BlocksSame(st, Add(st, t, st.pc(t)).value, t);
  }

  // ---------- each step keeps the sessions ----------

  /** The places of `t` say no more than before about whom it works on. */
  predicate NoNewRole(pc: PC, pc': PC) {
    && (DeletingOf(pc').Some? ==> DeletingOf(pc') == DeletingOf(pc))
    && (AddingOf(pc').Some? ==> AddingOf(pc') == AddingOf(pc))
  }

  lemma RolesSame(st: State, st': State, t: nat)
    requires Roles(st) && Moves(st, st', t) && st'.phase == st.phase && NoNewRole(st.pc(t), st'.pc(t))
    ensures Roles(st')
  {
    hide DeletingOf, AddingOf;
  }

  lemma UniqueSame(st: State, st': State, t: nat)
    requires Unique(st) && Moves(st, st', t) && NoNewRole(st.pc(t), st'.pc(t))
    ensures Unique(st')
  {
    hide DeletingOf, AddingOf;
    assert forall u: nat, x: nat :: DeletingOf(st'.pc(u)) == Some(x) ==> DeletingOf(st.pc(u)) == Some(x);
    assert forall u: nat, x: nat :: AddingOf(st'.pc(u)) == Some(x) ==> AddingOf(st.pc(u)) == Some(x);
  }

  lemma VectorSame(st: State, st': State, t: nat)
    requires VectorInv(st) && Moves(st, st', t) && st'.phase == st.phase && st'.vector == st.vector
    requires AtList(st'.pc(t)) ==> st'.pc(t).x in st.vector
    requires st'.pc(t).DelLeave? ==> st'.pc(t).x !in st.vector
    ensures VectorInv(st')
  {
  }

  lemma SessionsSame(st: State, st': State, t: nat)
    requires Sessions(st) && Moves(st, st', t) && st'.phase == st.phase && st'.vector == st.vector
    requires NoNewRole(st.pc(t), st'.pc(t)) && (AtList(st'.pc(t)) ==> st'.pc(t).x in st.vector)
    requires st'.pc(t).DelLeave? ==> st'.pc(t).x !in st.vector
    ensures Sessions(st')
  {
    hide *;
    SessionsParts(st);
    RolesSame(st, st', t);
    UniqueSame(st, st', t);
    VectorSame(st, st', t);
    SessionsFrom(st');
  }

  lemma SessionsParts(st: State)
    requires Sessions(st)
    ensures VectorInv(st) && Roles(st) && Unique(st)
  {
    hide VectorInv, Roles, Unique;
  }

  lemma SessionsFrom(st: State)
    requires VectorInv(st) && Roles(st) && Unique(st)
    ensures Sessions(st)
  {
    hide VectorInv, Roles, Unique;
  }

  lemma AddingPhase(st: State, t: nat)
    requires Roles(st) && AddingOf(st.pc(t)).Some?
    ensures st.phase(AddingOf(st.pc(t)).value) == Adding
  {
    hide AddingOf;
  }

  lemma DeletingPhase(st: State, t: nat)
    requires Roles(st) && DeletingOf(st.pc(t)).Some?
    ensures st.phase(DeletingOf(st.pc(t)).value) == Deleting
  {
    hide DeletingOf;
  }

  lemma RtpDataSessions(st: State, t: nat, a: Action)
    requires Sessions(st) && OnRtpData(st, t, st.pc(t), a).Some?
    ensures Sessions(OnRtpData(st, t, st.pc(t), a).value)
  {
    hide Put, Sessions;
    SessionsSame(st, OnRtpData(st, t, st.pc(t), a).value, t);
  }

  lemma SocketSessions(st: State, t: nat, a: Action)
    requires Sessions(st) && OnSocket(st, t, st.pc(t), a).Some?
    ensures Sessions(OnSocket(st, t, st.pc(t), a).value)
  {
    hide Put, Sessions;
    SessionsSame(st, OnSocket(st, t, st.pc(t), a).value, t);
  }

  lemma AtListInVector(st: State, t: nat)
    requires Sessions(st) && AtList(st.pc(t))
    ensures st.pc(t).x in st.vector
  {
  }

  lemma ConsumeSessions(st: State, t: nat)
    requires Sessions(st) && Consume(st, t, st.pc(t)).Some?
    ensures Sessions(Consume(st, t, st.pc(t)).value)
  {
    hide Sessions;
    ConsumeStays(st, t);
    if AtList(st.pc(t)) {
      AtListInVector(st, t);
    }
    hide *;
    SessionsSame(st, Consume(st, t, st.pc(t)).value, t);
  }

  lemma ConsumeStays(st: State, t: nat)
    requires Consume(st, t, st.pc(t)).Some?
    ensures var pc, st' := st.pc(t), Consume(st, t, st.pc(t)).value;
            && Moves(st, st', t) && st'.phase == st.phase && st'.vector == st.vector && NoNewRole(pc, st'.pc(t))
            && (AtList(st'.pc(t)) && AtList(pc) ==> st'.pc(t).x == pc.x)
            && (AtList(st'.pc(t)) && !AtList(pc) ==> st'.pc(t).x in st.vector)
            && !st'.pc(t).DelLeave?
  {
    hide Put;
  }

  /** The phase of `x` changes, and `t` works on it from then on or no more. */
  lemma RolesChange(st: State, st': State, t: nat, x: nat)
    requires Roles(st) && Unique(st) && Moves(st, st', t) && forall y: nat :: y != x ==> st'.phase(y) == st.phase(y)
    requires var pc := st'.pc(t);
             && (DeletingOf(pc).Some? ==> st'.phase(DeletingOf(pc).value) == Deleting)
             && (AddingOf(pc).Some? ==> st'.phase(AddingOf(pc).value) == Adding)
    requires st.phase(x) == Deleting ==> DeletingOf(st.pc(t)) == Some(x)
    requires st.phase(x) == Adding ==> AddingOf(st.pc(t)) == Some(x)
    ensures Roles(st')
  {
    hide DeletingOf, AddingOf;
  }

  /** `t` starts to add or delete `x`, which nobody did. */
  lemma UniqueNew(st: State, st': State, t: nat, x: nat)
    requires Roles(st) && Unique(st) && Moves(st, st', t) && st.phase(x) != Deleting && st.phase(x) != Adding
    requires var pc := st'.pc(t); (DeletingOf(pc).Some? ==> DeletingOf(pc) == Some(x))
                                  && (AddingOf(pc).Some? ==> AddingOf(pc) == Some(x))
    ensures Unique(st')
  {
    hide DeletingOf, AddingOf;
    assert forall u: nat :: DeletingOf(st.pc(u)) != Some(x) && AddingOf(st.pc(u)) != Some(x);
  }

  lemma BeginSessions(st: State, t: nat, a: Action)
    requires Sessions(st) && st.pc(t).Idle? && Begin(st, t, a).Some?
    ensures Sessions(Begin(st, t, a).value)
  {
    hide Put, Sessions;
    if a.BeginAdd? || a.BeginDelete? {
      BeginChange(st, t, a);
    } else {
      BeginProducing(st, Begin(st, t, a).value, t);
    }
  }

  lemma BeginVector(st: State, t: nat, a: Action)
    requires VectorInv(st) && st.pc(t).Idle? && Begin(st, t, a).Some? && (a.BeginAdd? || a.BeginDelete?)
    ensures VectorInv(Begin(st, t, a).value)
  {
    hide Put;
  }

  lemma BeginChange(st: State, t: nat, a: Action)
    requires Sessions(st) && st.pc(t).Idle? && Begin(st, t, a).Some? && (a.BeginAdd? || a.BeginDelete?)
    ensures Sessions(Begin(st, t, a).value)
  {
    hide Put, Roles, Unique, VectorInv;
    var st' := Begin(st, t, a).value;
    RolesChange(st, st', t, a.x);
    UniqueNew(st, st', t, a.x);
    BeginVector(st, t, a);
  }

  lemma BeginProducing(st: State, st': State, t: nat)
    requires Sessions(st) && Moves(st, st', t) && st'.phase == st.phase && st'.vector == st.vector
    requires var pc := st'.pc(t); DeletingOf(pc) == None && AddingOf(pc) == None && !AtList(pc) && !pc.DelLeave?
    ensures Sessions(st')
  {
    hide DeletingOf, AddingOf;
    VectorSame(st, st', t);
    assert forall u: nat, x: nat :: DeletingOf(st'.pc(u)) == Some(x) ==> DeletingOf(st.pc(u)) == Some(x);
    assert forall u: nat, x: nat :: AddingOf(st'.pc(u)) == Some(x) ==> AddingOf(st.pc(u)) == Some(x);
  }

  lemma WithoutKeepsOnce(v: seq<nat>, x: nat)
    requires forall i: nat, j: nat :: i < j < |v| ==> v[i] != v[j]
    ensures var w := Without(v, x); forall i: nat, j: nat :: i < j < |w| ==> w[i] != w[j]
  {
    if v != [] {
      WithoutKeepsOnce(v[1..], x);
      assert forall i: nat :: i < |v| - 1 ==> v[1..][i] == v[i + 1];
      var w := Without(v[1..], x);
      assert forall i :: 0 <= i < |w| ==> w[i] in v[1..];
    }
  }

  lemma DeleteSessions(st: State, t: nat)
    requires Sessions(st) && Locks(st) && Delete(st, t, st.pc(t)).Some?
    ensures Sessions(Delete(st, t, st.pc(t)).value)
  {
    hide Put, Roles, Unique, VectorInv, Locks;
    var pc, st' := st.pc(t), Delete(st, t, st.pc(t)).value;
    if pc.DelLeave? {
      DelLeaveSessions(st, t);
    } else if pc.DelDrain? && st.queue(pc.x) == [] {
      DeletingPhase(st, t);
      RolesSame(st, st', t);
      UniqueSame(st, st', t);
      EraseVector(st, st', t, pc.x);
    } else {
      if AtList(pc) {
        AtListInVector(st, t);
      }
      SessionsSame(st, st', t);
    }
  }

  lemma EraseVector(st: State, st': State, t: nat, x: nat)
    requires VectorInv(st) && Locks(st) && Moves(st, st', t) && st'.phase == st.phase
             && st'.vector == Without(st.vector, x)
    requires HoldsVector(st.pc(t)) && !AtList(st'.pc(t)) && (st'.pc(t).DelLeave? ==> st'.pc(t).x == x)
    requires st.phase(x) == Deleting
    ensures VectorInv(st')
  {
    hide Without;
    WithoutKeepsOnce(st.vector, x);
    assert st.vectorLock == Some(t);
    assert forall u: nat :: u != t ==> !HoldsVector(st.pc(u));
  }

  lemma DelLeaveSessions(st: State, t: nat)
    requires Sessions(st) && st.pc(t).DelLeave?
    ensures Sessions(Delete(st, t, st.pc(t)).value)
  {
    hide Put, Roles, Unique;
    var x, st' := st.pc(t).x, Delete(st, t, st.pc(t)).value;
    DeletingPhase(st, t);
    RolesChange(st, st', t, x);
    UniqueSame(st, st', t);
  }

  lemma AddSessions(st: State, t: nat)
    requires Sessions(st) && Locks(st) && Add(st, t, st.pc(t)).Some?
    ensures Sessions(Add(st, t, st.pc(t)).value)
  {
    hide Put, Roles, Unique, VectorInv, Locks;
    var pc, st' := st.pc(t), Add(st, t, st.pc(t)).value;
    if pc.AddInVector? {
      AddingPhase(st, t);
      RolesChange(st, st', t, pc.x);
      UniqueSame(st, st', t);
      AppendVector(st, st', t, pc.x);
    } else {
      SessionsSame(st, st', t);
    }
  }

  lemma AppendVector(st: State, st': State, t: nat, x: nat)
    requires VectorInv(st) && Locks(st) && Moves(st, st', t) && st'.vector == st.vector + [x] && st.phase(x) == Adding
    requires forall y: nat :: st'.phase(y) == if y == x then Live else st.phase(y)
    requires HoldsVector(st.pc(t)) && st'.pc(t) == Idle
    ensures VectorInv(st')
  {
    assert st.vectorLock == Some(t);
    assert forall u: nat :: u != t ==> !HoldsVector(st.pc(u));
    assert x !in st.vector;
  }

  // ---------- each step keeps the order ----------

  lemma TakenIs(st: State, t: nat, x: nat)
    requires Locks(st)
    ensures HoldsVector(st.pc(t)) ==> Taken(st, x) == TakenBy(st.pc(t), x) && DelAt(st, x) == DeletingAt(st.pc(t), x)
    ensures !HoldsVector(st.pc(t)) ==> TakenBy(st.pc(t), x) == [] && !DeletingAt(st.pc(t), x)
  {
  }

  /** What is taken changes as the place of `t` does. */
  lemma TakenMoves(st: State, st': State, t: nat, x: nat)
    requires Locks(st) && Locks(st') && LocksMove(st, st', t)
    ensures Taken(st', x) == TakenBy(st'.pc(t), x) || (Taken(st', x) == Taken(st, x) && TakenBy(st'.pc(t), x) == [])
    ensures TakenBy(st'.pc(t), x) == TakenBy(st.pc(t), x) ==> Taken(st', x) == Taken(st, x)
    ensures TakenBy(st.pc(t), x) != []
            ==> Taken(st, x) == TakenBy(st.pc(t), x) && Taken(st', x) == TakenBy(st'.pc(t), x)
    ensures TakenBy(st'.pc(t), x) != [] ==> Taken(st', x) == TakenBy(st'.pc(t), x)
    ensures HoldsVector(st.pc(t)) && HoldsVector(st'.pc(t))
            ==> Taken(st, x) == TakenBy(st.pc(t), x) && Taken(st', x) == TakenBy(st'.pc(t), x)
  {
    TakenIs(st, t, x);
    TakenIs(st', t, x);
  }

  ghost predicate SameOrder(a: State, b: State) {
    a.pushed == b.pushed && a.handled == b.handled && a.dropped == b.dropped && a.queue == b.queue
  }

  lemma OrderSame(st: State, st': State, t: nat)
    requires Order(st) && Locks(st) && Locks(st') && LocksMove(st, st', t) && SameOrder(st', st)
             && DropsOnlyDeleted(st')
    requires forall x: nat :: TakenBy(st'.pc(t), x) == TakenBy(st.pc(t), x)
    ensures Order(st')
  {
    hide DropsOnlyDeleted, Locks, LocksMove, Taken;
    forall x: nat ensures Balanced(st', x) {
      TakenMoves(st, st', t, x);
      assert Balanced(st, x);
    }
  }

  /** With the vector and the phases as before, deletions stay where they are unless `t` leaves a list. */
  lemma DropsSame(st: State, st': State, t: nat)
    requires Order(st) && Locks(st) && Locks(st') && LocksMove(st, st', t)
    requires st'.dropped == st.dropped && st'.vector == st.vector
    requires forall x: nat :: st.dropped(x) != [] ==> st'.phase(x) == st.phase(x)
    requires forall x: nat :: DeletingAt(st.pc(t), x) ==> DeletingAt(st'.pc(t), x)
    ensures DropsOnlyDeleted(st')
  {
    forall x: nat ensures DelAt(st, x) ==> DelAt(st', x) {
      TakenIs(st, t, x);
      TakenIs(st', t, x);
    }
    hide Taken, DelAt;
  }

  lemma BeginOrder(st: State, t: nat, a: Action)
    requires Order(st) && Locks(st) && st.pc(t).Idle? && Begin(st, t, a).Some?
    ensures Order(Begin(st, t, a).value)
  {
    var st' := Begin(st, t, a).value;
    BeginLocks(st, t, a);
    LocksKept(st, st', t);
    assert forall x: nat :: st.dropped(x) != [] ==> st'.phase(x) == st.phase(x);
    hide Put, Locks, Order, LocksMove;
    DropsSame(st, st', t);
    OrderSame(st, st', t);
  }

  lemma PacketsSnoc(q: seq<Node>, node: Node)
    ensures PacketsOf(q + [node]) == PacketsOf(q) + [node.packet]
  {
  }

  lemma OrderPush(st: State, st': State, t: nat, x: nat, node: Node)
    requires Order(st) && Locks(st) && Locks(st') && LocksMove(st, st', t)
    requires SameOrder(st', Push(st, x, node)) && st'.vector == st.vector && st'.phase == st.phase
    requires forall y: nat :: TakenBy(st'.pc(t), y) == TakenBy(st.pc(t), y)
    requires forall y: nat :: DeletingAt(st.pc(t), y) ==> DeletingAt(st'.pc(t), y)
    ensures Order(st')
  {
    DropsSame(st, st', t);
    hide DropsOnlyDeleted, Locks, LocksMove, Taken;
    forall y: nat ensures Balanced(st', y) {
      TakenMoves(st, st', t, y);
      assert Balanced(st, y);
      PacketsSnoc(st.queue(x), node);
      var before := st.handled(y) + st.dropped(y) + Taken(st, y);
      assert before + (PacketsOf(st.queue(x)) + [node.packet]) == before + PacketsOf(st.queue(x)) + [node.packet];
    }
  }

  lemma RtpDataOrder(st: State, t: nat, a: Action)
    requires Order(st) && Locks(st) && OnRtpData(st, t, st.pc(t), a).Some?
    ensures Order(OnRtpData(st, t, st.pc(t), a).value)
  {
    var pc, st' := st.pc(t), OnRtpData(st, t, st.pc(t), a).value;
    RtpDataLocks(st, t, a);
    LocksKept(st, st', t);
    hide Put, Locks, Order, LocksMove;
    if pc.MapPush? {
      OrderPush(st, st', t, pc.x, Node(pc.b, pc.p));
    } else {
      DropsSame(st, st', t);
      OrderSame(st, st', t);
    }
  }

  lemma SocketOrder(st: State, t: nat, a: Action)
    requires Order(st) && Locks(st) && OnSocket(st, t, st.pc(t), a).Some?
    ensures Order(OnSocket(st, t, st.pc(t), a).value)
  {
    var pc, st' := st.pc(t), OnSocket(st, t, st.pc(t), a).value;
    SocketLocks(st, t, a);
    LocksKept(st, st', t);
    hide Put, Locks, Order, LocksMove;
    if pc.SockPush? {
      OrderPush(st, st', t, pc.x, Node(pc.b, pc.p));
    } else {
      DropsSame(st, st', t);
      OrderSame(st, st', t);
    }
  }

  lemma PacketsCons(q: seq<Node>)
    requires q != []
    ensures PacketsOf(q) == [q[0].packet] + PacketsOf(q[1..])
  {
  }

  lemma OrderPop(st: State, st': State, t: nat, x: nat)
    requires Order(st) && Locks(st) && Locks(st') && LocksMove(st, st', t) && st.queue(x) != []
    requires SameOrder(st', Pop(st, t, x)) && st'.vector == st.vector && st'.phase == st.phase
    requires HoldsVector(st.pc(t)) && HoldsVector(st'.pc(t))
    requires forall y: nat :: TakenBy(st.pc(t), y) == []
    requires forall y: nat :: TakenBy(st'.pc(t), y) == if y == x then [st.queue(x)[0].packet] else []
    requires forall y: nat :: DeletingAt(st.pc(t), y) ==> DeletingAt(st'.pc(t), y)
    ensures Order(st')
  {
    DropsSame(st, st', t);
    hide DropsOnlyDeleted, Locks, LocksMove, Taken, TakenBy, DeletingAt, HoldsVector, PacketsOf;
    var q := st.queue(x);
    PacketsCons(q);
    forall y: nat ensures Balanced(st', y) {
      TakenMoves(st, st', t, y);
      assert Balanced(st, y);
      var before := st.handled(y) + st.dropped(y);
      assert before + [] == before;
      assert before + ([q[0].packet] + PacketsOf(q[1..])) == before + [q[0].packet] + PacketsOf(q[1..]);
    }
  }

  /** A list that the capture thread drains has lost nothing to a deletion. */
  lemma HandlingDropsNothing(st: State, t: nat)
    requires DropsOnlyDeleted(st) && Locks(st) && VectorInv(st) && st.pc(t).Handling?
    ensures st.dropped(st.pc(t).x) == []
  {
    TakenIs(st, t, st.pc(t).x);
    hide DelAt, Locks;
  }

  /** The taken packet is handled: nothing of this list was dropped. */
  lemma OrderHandle(st: State, st': State, t: nat)
    requires Order(st) && Locks(st) && Locks(st') && LocksMove(st, st', t) && VectorInv(st) && st.pc(t).Handling?
    requires var pc := st.pc(t);
             && st'.pushed == st.pushed && st'.dropped == st.dropped && st'.queue == st.queue
             && st'.handled == Put(st.handled, pc.x, st.handled(pc.x) + [pc.node.packet])
             && st'.vector == st.vector && st'.phase == st.phase && st'.pc(t) == Drain(pc.i, pc.x)
    ensures Order(st')
  {
    var pc := st.pc(t);
    DropsSame(st, st', t);
    HandlingDropsNothing(st, t);
    hide DropsOnlyDeleted, Locks, LocksMove, Taken, VectorInv;
    forall y: nat ensures Balanced(st', y) {
      TakenMoves(st, st', t, y);
      assert Balanced(st, y);
      if y == pc.x {
        assert st'.handled(y) + [] + [] == st.handled(y) + [] + [pc.node.packet];
      }
    }
  }

  lemma ConsumeOrder(st: State, t: nat)
    requires Order(st) && Locks(st) && Sessions(st) && Consume(st, t, st.pc(t)).Some?
    ensures Order(Consume(st, t, st.pc(t)).value)
  {
    hide *;
    SessionsParts(st);
    var pc, st' := st.pc(t), Consume(st, t, st.pc(t)).value;
    ConsumeLocks(st, t);
    LocksKept(st, st', t);
    if pc.Drain? && st.queue(pc.x) != [] {
      ConsumePopOrder(st, t);
    } else if pc.Handling? {
      ConsumeHandleOrder(st, t);
    } else {
      ConsumeOtherOrder(st, t);
    }
  }

  lemma ConsumePopOrder(st: State, t: nat)
    requires Order(st) && Locks(st) && st.pc(t).Drain? && st.queue(st.pc(t).x) != []
    requires var st' := Consume(st, t, st.pc(t)).value; Locks(st') && LocksMove(st, st', t)
    ensures Order(Consume(st, t, st.pc(t)).value)
  {
    hide Put, Locks, Order, LocksMove;
    OrderPop(st, Consume(st, t, st.pc(t)).value, t, st.pc(t).x);
  }

  lemma ConsumeHandleOrder(st: State, t: nat)
    requires Order(st) && Locks(st) && VectorInv(st) && st.pc(t).Handling?
    requires var st' := Consume(st, t, st.pc(t)).value; Locks(st') && LocksMove(st, st', t)
    ensures Order(Consume(st, t, st.pc(t)).value)
  {
    hide Put, Locks, Order, LocksMove, VectorInv;
    OrderHandle(st, Consume(st, t, st.pc(t)).value, t);
  }

  lemma ConsumeOtherOrder(st: State, t: nat)
    requires Order(st) && Locks(st) && Consume(st, t, st.pc(t)).Some?
    requires !(st.pc(t).Drain? && st.queue(st.pc(t).x) != []) && !st.pc(t).Handling?
    requires var st' := Consume(st, t, st.pc(t)).value; Locks(st') && LocksMove(st, st', t)
    ensures Order(Consume(st, t, st.pc(t)).value)
  {
    hide Put, Locks, Order, LocksMove;
    var st' := Consume(st, t, st.pc(t)).value;
    DropsSame(st, st', t);
    OrderSame(st, st', t);
  }

  /** The taken packet is dropped by the deletion. */
  lemma OrderDrop(st: State, st': State, t: nat)
    requires Order(st) && Locks(st) && Locks(st') && LocksMove(st, st', t) && Roles(st) && st.pc(t).DelNode?
    requires var pc := st.pc(t);
             && st'.pushed == st.pushed && st'.handled == st.handled && st'.queue == st.queue
             && st'.dropped == Put(st.dropped, pc.x, st.dropped(pc.x) + [pc.node.packet])
             && st'.vector == st.vector && st'.phase == st.phase && st'.pc(t) == DelDrain(pc.x)
    ensures Order(st')
  {
    var pc := st.pc(t);
    DeletingPhase(st, t);
    hide Locks, LocksMove, Roles, Taken, DropsOnlyDeleted;
    DropsOfDrop(st, st', t);
    forall y: nat ensures Balanced(st', y) {
      TakenMoves(st, st', t, y);
      assert Balanced(st, y);
      if y == pc.x {
        assert st.handled(y) + (st.dropped(y) + [pc.node.packet]) + []
               == st.handled(y) + st.dropped(y) + [pc.node.packet];
      }
    }
  }

  lemma DropsOfDrop(st: State, st': State, t: nat)
    requires DropsOnlyDeleted(st) && Locks(st) && Locks(st') && st.pc(t).DelNode?
    requires st'.pc(t) == DelDrain(st.pc(t).x) && st.phase(st.pc(t).x) == Deleting
    requires forall y: nat :: y != st.pc(t).x ==> st'.dropped(y) == st.dropped(y)
    requires st'.vector == st.vector && st'.phase == st.phase
    ensures DropsOnlyDeleted(st')
  {
    var x := st.pc(t).x;
    forall y: nat ensures (DelAt(st, y) ==> y == x) && DelAt(st', x) {
      TakenIs(st, t, y);
      TakenIs(st', t, x);
    }
    hide DelAt, Locks;
  }

  /** A session leaves the vector when its list is empty. */
  lemma OrderErase(st: State, st': State, t: nat)
    requires Order(st) && Locks(st) && Locks(st') && LocksMove(st, st', t) && st.pc(t).DelDrain? && SameOrder(st', st)
    requires st'.vector == Without(st.vector, st.pc(t).x) && st'.phase == st.phase && st'.pc(t) == DelLeave(st.pc(t).x)
    ensures Order(st')
  {
    forall y: nat ensures Balanced(st', y) && (DelAt(st, y) ==> y == st.pc(t).x) {
      TakenMoves(st, st', t, y);
      TakenIs(st, t, y);
      assert Balanced(st, y);
    }
    hide Balanced, DelAt, Without, Locks, LocksMove;
  }

  lemma DeleteOrder(st: State, t: nat)
    requires Order(st) && Locks(st) && Sessions(st) && Delete(st, t, st.pc(t)).Some?
    ensures Order(Delete(st, t, st.pc(t)).value)
  {
    hide *;
    SessionsParts(st);
    var pc, st' := st.pc(t), Delete(st, t, st.pc(t)).value;
    DeleteLocks(st, t);
    LocksKept(st, st', t);
    if pc.DelDrain? {
      DeleteDrainOrder(st, t);
    } else if pc.DelNode? {
      DeleteNodeOrder(st, t);
    } else {
      DeleteOtherOrder(st, t);
    }
  }

  lemma DeleteDrainOrder(st: State, t: nat)
    requires Order(st) && Locks(st) && st.pc(t).DelDrain?
    requires var st' := Delete(st, t, st.pc(t)).value; Locks(st') && LocksMove(st, st', t)
    ensures Order(Delete(st, t, st.pc(t)).value)
  {
    hide Put, Locks, Order, LocksMove;
    var pc, st' := st.pc(t), Delete(st, t, st.pc(t)).value;
    if st.queue(pc.x) != [] {
      OrderPop(st, st', t, pc.x);
    } else {
      OrderErase(st, st', t);
    }
  }

  lemma DeleteNodeOrder(st: State, t: nat)
    requires Order(st) && Locks(st) && Roles(st) && st.pc(t).DelNode?
    requires var st' := Delete(st, t, st.pc(t)).value; Locks(st') && LocksMove(st, st', t)
    ensures Order(Delete(st, t, st.pc(t)).value)
  {
    hide Put, Locks, Order, LocksMove, Roles;
    OrderDrop(st, Delete(st, t, st.pc(t)).value, t);
  }

  lemma DeleteOtherOrder(st: State, t: nat)
    requires Order(st) && Locks(st) && Delete(st, t, st.pc(t)).Some? && !st.pc(t).DelDrain? && !st.pc(t).DelNode?
    requires var st' := Delete(st, t, st.pc(t)).value; Locks(st') && LocksMove(st, st', t)
    ensures Order(Delete(st, t, st.pc(t)).value)
  {
    hide Put, Locks, Order, LocksMove;
    var pc, st' := st.pc(t), Delete(st, t, st.pc(t)).value;
    if pc.DelLeave? {
      OrderLeave(st, st', t);
    } else {
      DropsSame(st, st', t);
      OrderSame(st, st', t);
    }
  }

  lemma OrderLeave(st: State, st': State, t: nat)
    requires Order(st) && Locks(st) && Locks(st') && LocksMove(st, st', t) && st.pc(t).DelLeave? && SameOrder(st', st)
    requires st'.vector == st.vector && st'.pc(t) == Idle && st'.phase == Put(st.phase, st.pc(t).x, Gone)
    ensures Order(st')
  {
    forall y: nat ensures Balanced(st', y) && !DelAt(st, y) {
      TakenMoves(st, st', t, y);
      TakenIs(st, t, y);
      assert Balanced(st, y);
    }
    hide Balanced, DelAt, Locks, LocksMove;
  }

  lemma OrderAppend(st: State, st': State, t: nat)
    requires Order(st) && Locks(st) && Locks(st') && LocksMove(st, st', t) && st.pc(t).AddInVector?
             && SameOrder(st', st)
    requires st.phase(st.pc(t).x) == Adding && st'.vector == st.vector + [st.pc(t).x] && st'.pc(t) == Idle
    requires st'.phase == Put(st.phase, st.pc(t).x, Live)
    ensures Order(st')
  {
    forall y: nat ensures Balanced(st', y) && !DelAt(st, y) {
      TakenMoves(st, st', t, y);
      TakenIs(st, t, y);
      assert Balanced(st, y);
    }
    hide Balanced, DelAt, Locks, LocksMove;
  }

  lemma AddOrder(st: State, t: nat)
    requires Order(st) && Locks(st) && Sessions(st) && Add(st, t, st.pc(t)).Some?
    ensures Order(Add(st, t, st.pc(t)).value)
  {
    hide *;
    SessionsParts(st);
    var st' := Add(st, t, st.pc(t)).value;
    AddLocks(st, t);
    LocksKept(st, st', t);
    if st.pc(t).AddInVector? {
      AddLastOrder(st, t);
    } else {
      AddOtherOrder(st, t);
    }
  }

  lemma AddLastOrder(st: State, t: nat)
    requires Order(st) && Locks(st) && Roles(st) && st.pc(t).AddInVector?
    requires var st' := Add(st, t, st.pc(t)).value; Locks(st') && LocksMove(st, st', t)
    ensures Order(Add(st, t, st.pc(t)).value)
  {
    AddingPhase(st, t);
    hide Put, Locks, Order, LocksMove, Roles;
    OrderAppend(st, Add(st, t, st.pc(t)).value, t);
  }

  lemma AddOtherOrder(st: State, t: nat)
    requires Order(st) && Locks(st) && Add(st, t, st.pc(t)).Some? && !st.pc(t).AddInVector?
    requires var st' := Add(st, t, st.pc(t)).value; Locks(st') && LocksMove(st, st', t)
    ensures Order(Add(st, t, st.pc(t)).value)
  {
    hide Put, Locks, Order, LocksMove;
    var st' := Add(st, t, st.pc(t)).value;
    DropsSame(st, st', t);
    OrderSame(st, st', t);
  }

  // ---------- each step keeps the lists ----------

  /** No session leaves, and `t` takes no list and puts nothing on a list of one that has. */
  lemma ListsKept(st: State, st': State, t: nat)
    requires Lists(st) && Moves(st, st', t)
    requires forall x: nat ::
               Left(st', x) ==> Left(st, x) && HeldList(st'.pc(t)) != Some(x) && st'.queue(x) == st.queue(x)
    ensures Lists(st')
  {
    hide HeldList, Left;
    forall u: nat, x: nat | HeldList(st'.pc(u)) == Some(x) ensures !Left(st', x) {
      if u != t {
        assert HeldList(st.pc(u)) == Some(x);
      }
    }
  }

  /** A list in hand belongs to a session that has not left. */
  lemma HeldHasNotLeft(st: State, t: nat, x: nat)
    requires Lists(st) && HeldList(st.pc(t)) == Some(x)
    ensures !Left(st, x)
  {
    hide HeldList, Left;
  }

  lemma InVectorHasNotLeft(st: State, x: nat)
    requires VectorInv(st) && x in st.vector
    ensures !Left(st, x)
  {
  }

  lemma SameLeft(st: State, st': State)
    requires st'.phase == st.phase && st'.vector == st.vector
    ensures forall x: nat :: Left(st', x) == Left(st, x)
  {
  }

  lemma BeginLists(st: State, t: nat, a: Action)
    requires Lists(st) && VectorInv(st) && st.pc(t).Idle? && Begin(st, t, a).Some?
    ensures Lists(Begin(st, t, a).value)
  {
    hide Put, Lists;
    ListsKept(st, Begin(st, t, a).value, t);
  }

  lemma RtpDataLists(st: State, t: nat, a: Action)
    requires Lists(st) && OnRtpData(st, t, st.pc(t), a).Some?
    ensures Lists(OnRtpData(st, t, st.pc(t), a).value)
  {
    hide Put, Lists;
    var pc, st' := st.pc(t), OnRtpData(st, t, st.pc(t), a).value;
    SameLeft(st, st');
    if HeldList(pc).Some? {
      HeldHasNotLeft(st, t, pc.x);
    }
    hide Left;
    ListsKept(st, st', t);
  }

  lemma SocketLists(st: State, t: nat, a: Action)
    requires Lists(st) && OnSocket(st, t, st.pc(t), a).Some?
    ensures Lists(OnSocket(st, t, st.pc(t), a).value)
  {
    hide Put, Lists;
    var pc, st' := st.pc(t), OnSocket(st, t, st.pc(t), a).value;
    SameLeft(st, st');
    if HeldList(pc).Some? {
      HeldHasNotLeft(st, t, pc.x);
    }
    hide Left;
    ListsKept(st, st', t);
  }

  lemma ConsumeLists(st: State, t: nat)
    requires Lists(st) && VectorInv(st) && Consume(st, t, st.pc(t)).Some?
    ensures Lists(Consume(st, t, st.pc(t)).value)
  {
    hide Put, Lists, VectorInv;
    var pc, st' := st.pc(t), Consume(st, t, st.pc(t)).value;
    SameLeft(st, st');
    if HeldList(pc).Some? {
      HeldHasNotLeft(st, t, pc.x);
    } else if pc.Scan? && pc.i < |st.vector| {
      InVectorHasNotLeft(st, st.vector[pc.i]);
    }
    hide Left;
    ListsKept(st, st', t);
  }

  lemma DeleteLists(st: State, t: nat)
    requires Lists(st) && Locks(st) && Sessions(st) && Delete(st, t, st.pc(t)).Some?
    ensures Lists(Delete(st, t, st.pc(t)).value)
  {
    hide *;
    SessionsParts(st);
    if st.pc(t).DelLeave? {
      LeaveLists(st, t);
    } else if st.pc(t).DelDrain? && st.queue(st.pc(t).x) == [] {
      EraseLists(st, t);
    } else {
      DeleteOtherLists(st, t);
    }
  }

  lemma LeaveLists(st: State, t: nat)
    requires Lists(st) && VectorInv(st) && Roles(st) && st.pc(t).DelLeave?
    ensures Lists(Delete(st, t, st.pc(t)).value)
  {
    DeletingPhase(st, t);
    assert st.pc(t).x !in st.vector;
    hide Put, Lists, VectorInv, Roles;
    ListsKept(st, Delete(st, t, st.pc(t)).value, t);
  }

  /** The session leaves with an empty list that only the deletion held. */
  lemma EraseLists(st: State, t: nat)
    requires Lists(st) && Locks(st) && st.pc(t).DelDrain? && st.queue(st.pc(t).x) == []
    ensures Lists(Delete(st, t, st.pc(t)).value)
  {
    var x, st' := st.pc(t).x, Delete(st, t, st.pc(t)).value;
    assert Moves(st, st', t) && HeldList(st'.pc(t)) == None && st'.queue == st.queue;
    assert forall y: nat :: Left(st', y) ==> Left(st, y) || y == x;
    forall u: nat, y: nat | HeldList(st'.pc(u)) == Some(y) ensures !Left(st', y) {
      assert u != t && HeldList(st.pc(u)) == Some(y);
      OneHolder(st, t, u, x);
    }
  }

  lemma DeleteOtherLists(st: State, t: nat)
    requires Lists(st) && VectorInv(st) && Delete(st, t, st.pc(t)).Some?
    requires !st.pc(t).DelLeave? && !(st.pc(t).DelDrain? && st.queue(st.pc(t).x) == [])
    ensures Lists(Delete(st, t, st.pc(t)).value)
  {
    hide Put, Lists, VectorInv;
    var pc, st' := st.pc(t), Delete(st, t, st.pc(t)).value;
    SameLeft(st, st');
    if HeldList(pc).Some? {
      HeldHasNotLeft(st, t, pc.x);
    } else if pc.Search? && pc.x in st.vector {
      InVectorHasNotLeft(st, pc.x);
    }
    hide Left;
    ListsKept(st, st', t);
  }

  lemma AddLists(st: State, t: nat)
    requires Lists(st) && Add(st, t, st.pc(t)).Some?
    ensures Lists(Add(st, t, st.pc(t)).value)
  {
    hide Put, Lists;
    ListsKept(st, Add(st, t, st.pc(t)).value, t);
  }

  // ---------- all steps ----------

  lemma StepInv(st: State, t: nat, a: Action)
    requires Inv(st) && Step(st, t, a).Some?
    ensures Inv(Step(st, t, a).value)
  {
    var pc := st.pc(t);
    hide *;
    InvParts(st);
    SessionsParts(st);
    StepIs(st, t, a);
    if pc.Idle? {
      BeginLocks(st, t, a);
      BeginBlocks(st, t, a);
      BeginSessions(st, t, a);
      BeginLists(st, t, a);
      BeginOrder(st, t, a);
    } else if OnMap(pc) {
      RtpDataLocks(st, t, a);
      RtpDataBlocks(st, t, a);
      RtpDataSessions(st, t, a);
      RtpDataLists(st, t, a);
      RtpDataOrder(st, t, a);
    } else if Producing(pc).Some? {
      SocketLocks(st, t, a);
      SocketBlocks(st, t, a);
      SocketSessions(st, t, a);
      SocketLists(st, t, a);
      SocketOrder(st, t, a);
    } else if DeletingOf(pc).Some? {
      DeleteLocks(st, t);
      DeleteBlocks(st, t);
      DeleteSessions(st, t);
      DeleteLists(st, t);
      DeleteOrder(st, t);
    } else if AddingOf(pc).Some? {
      AddLocks(st, t);
      AddBlocks(st, t);
      AddSessions(st, t);
      AddLists(st, t);
      AddOrder(st, t);
    } else {
      ConsumeLocks(st, t);
      ConsumeBlocks(st, t);
      ConsumeSessions(st, t);
      ConsumeLists(st, t);
      ConsumeOrder(st, t);
    }
    LocksKept(st, Step(st, t, a).value, t);
    InvFrom(Step(st, t, a).value);
  }

  lemma StepIs(st: State, t: nat, a: Action)
    ensures var pc := st.pc(t);
            Step(st, t, a) == if pc.Idle? then Begin(st, t, a)
                              else if OnMap(pc) then OnRtpData(st, t, pc, a)
                              else if Producing(pc).Some? then OnSocket(st, t, pc, a)
                              else if DeletingOf(pc).Some? then Delete(st, t, pc)
                              else if AddingOf(pc).Some? then Add(st, t, pc)
                              else Consume(st, t, pc)
  {
    hide Begin, OnRtpData, OnSocket, Delete, Add, Consume;
  }

  /** Every interleaving keeps the invariants. */
  lemma {:induction false} RunInv(st: State, moves: seq<Move>)
    requires Inv(st) && Run(st, moves).Some?
    ensures Inv(Run(st, moves).value)
    decreases |moves|
  {
    hide Inv, Step;
    if moves != [] {
      StepInv(st, moves[0].t, moves[0].a);
      RunInv(Step(st, moves[0].t, moves[0].a).value, moves[1..]);
    }
  }

  lemma InvParts(st: State)
    requires Inv(st)
    ensures Locks(st) && Blocks(st) && Sessions(st) && Lists(st) && Order(st)
  {
    hide Locks, Blocks, Sessions, Lists, Order;
  }

  lemma InvFrom(st: State)
    requires Locks(st) && Blocks(st) && Sessions(st) && Lists(st) && Order(st)
    ensures Inv(st)
  {
    hide Locks, Blocks, Sessions, Lists, Order;
  }

  // ---------- main results ----------

  /** Main result: after every run each block of the pool is free, or held by exactly one thread, or in exactly one
      place of exactly one list; and it has come back to the pool as often as it was given out, once less while it
      is out. */
  lemma BlocksArePartitioned(pool: set<nat>, moves: seq<Move>, b: nat)
    requires b in pool && Run(Init(pool), moves).Some?
    ensures var st := Run(Init(pool), moves).value;
            var held := exists t: nat :: InHand(st.pc(t)) == Some(b);
            var queued := exists x: nat :: HasBlock(st.queue(x), b);
            && (b in st.free || held || queued)
            && !(b in st.free && held) && !(b in st.free && queued) && !(held && queued)
            && (forall t: nat, u: nat :: InHand(st.pc(t)) == Some(b) && InHand(st.pc(u)) == Some(b) ==> t == u)
            && (forall x: nat, y: nat :: HasBlock(st.queue(x), b) && HasBlock(st.queue(y), b) ==> x == y)
            && (forall x: nat, i: nat, j: nat :: i < j < |st.queue(x)| && st.queue(x)[i].block == b
                  ==> st.queue(x)[j].block != b)
            && st.got(b) == st.released(b) + if b in st.free then 0 else 1
  {
    hide *;
    InitInv(pool);
    RunInv(Init(pool), moves);
    PoolStays(Init(pool), moves);
    InitPool(pool);
    InvParts(Run(Init(pool), moves).value);
    PartitionOf(Run(Init(pool), moves).value, b);
  }

  lemma InitPool(pool: set<nat>)
    ensures Init(pool).pool == pool
  {
  }

  lemma {:induction false} PoolStays(st: State, moves: seq<Move>)
    requires Run(st, moves).Some?
    ensures Run(st, moves).value.pool == st.pool
    decreases |moves|
  {
    if moves != [] {
      StepPool(st, moves[0].t, moves[0].a);
      hide Step;
      PoolStays(Step(st, moves[0].t, moves[0].a).value, moves[1..]);
    }
  }

  lemma StepPool(st: State, t: nat, a: Action)
    requires Step(st, t, a).Some?
    ensures Step(st, t, a).value.pool == st.pool
  {
  }

  lemma PartitionOf(st: State, b: nat)
    requires Blocks(st) && b in st.pool
    ensures var held := exists t: nat :: InHand(st.pc(t)) == Some(b);
            var queued := exists x: nat :: HasBlock(st.queue(x), b);
            && (b in st.free || held || queued)
            && !(b in st.free && held) && !(b in st.free && queued) && !(held && queued)
            && (forall t: nat, u: nat :: InHand(st.pc(t)) == Some(b) && InHand(st.pc(u)) == Some(b) ==> t == u)
            && (forall x: nat, y: nat :: HasBlock(st.queue(x), b) && HasBlock(st.queue(y), b) ==> x == y)
            && (forall x: nat, i: nat, j: nat :: i < j < |st.queue(x)| && st.queue(x)[i].block == b
                  ==> st.queue(x)[j].block != b)
            && st.got(b) == st.released(b) + if b in st.free then 0 else 1
  {
    hide InHand;
    assert forall x: nat :: HasBlock(st.queue(x), b) ==> st.owner(b) == Queued(x);
    match st.owner(b)
    case Free =>
    case Hand(t) => assert InHand(st.pc(t)) == Some(b);
    case Queued(x) => assert HasBlock(st.queue(x), b);
  }

  /** Main result: packets of a session reach the handler in push order; only a deletion drops any, and then only those
      behind the handled ones; and when it has taken the session out, every packet pushed was handled or dropped. */
  lemma PacketsAreHandledInOrder(pool: set<nat>, moves: seq<Move>, x: nat)
    requires Run(Init(pool), moves).Some?
    ensures var st := Run(Init(pool), moves).value;
            && st.handled(x) + st.dropped(x) <= st.pushed(x)
            && (st.phase(x) != Deleting && st.phase(x) != Gone ==> st.dropped(x) == [])
            && (Taken(st, x) == [] && st.queue(x) == [] ==> st.handled(x) + st.dropped(x) == st.pushed(x))
            && (Left(st, x) ==> st.handled(x) + st.dropped(x) == st.pushed(x))
  {
    hide *;
    InitInv(pool);
    RunInv(Init(pool), moves);
    var st := Run(Init(pool), moves).value;
    InvParts(st);
    SessionsParts(st);
    OrderOf(st, x);
    if Left(st, x) {
      LeftIsEmpty(st, x);
    }
  }

  lemma OrderOf(st: State, x: nat)
    requires Order(st)
    ensures st.handled(x) + st.dropped(x) <= st.pushed(x)
    ensures st.phase(x) != Deleting && st.phase(x) != Gone ==> st.dropped(x) == []
    ensures Taken(st, x) == [] && st.queue(x) == [] ==> st.handled(x) + st.dropped(x) == st.pushed(x)
  {
    hide Taken, DelAt;
    var waiting := Taken(st, x) + PacketsOf(st.queue(x));
    assert Balanced(st, x);
    assert st.pushed(x) == st.handled(x) + st.dropped(x) + waiting;
    if Taken(st, x) == [] && st.queue(x) == [] {
      assert waiting == [];
      assert st.handled(x) + st.dropped(x) + [] == st.handled(x) + st.dropped(x);
    }
  }

  lemma TakenIsInVector(st: State, x: nat)
    requires Locks(st) && VectorInv(st)
    ensures Taken(st, x) != [] ==> x in st.vector
  {
  }

  lemma LeftIsEmpty(st: State, x: nat)
    requires Lists(st) && Locks(st) && VectorInv(st) && Left(st, x)
    ensures st.queue(x) == [] && Taken(st, x) == []
  {
    TakenIsInVector(st, x);
    assert x !in st.vector;
  }

  /** Main result: when a deletion is over, its session's list is empty, nobody holds it and it is not in the vector;
      and two threads never have the same list in their hands. */
  lemma NoUseAfterDeletion(pool: set<nat>, moves: seq<Move>, t: nat, u: nat, x: nat)
    requires Run(Init(pool), moves).Some?
    ensures var st := Run(Init(pool), moves).value;
            && (st.phase(x) == Gone ==> x !in st.vector && st.queue(x) == [] && DeletingOf(st.pc(t)) != Some(x)
                                        && HeldList(st.pc(t)) != Some(x))
            && (HeldList(st.pc(t)) == Some(x) && HeldList(st.pc(u)) == Some(x) ==> t == u)
  {
    hide *;
    InitInv(pool);
    RunInv(Init(pool), moves);
    var st := Run(Init(pool), moves).value;
    InvParts(st);
    SessionsParts(st);
    if st.phase(x) == Gone {
      GoneIsLeft(st, t, x);
    }
    OneHolder(st, t, u, x);
  }

  lemma OneHolder(st: State, t: nat, u: nat, x: nat)
    requires Locks(st)
    ensures HeldList(st.pc(t)) == Some(x) && HeldList(st.pc(u)) == Some(x) ==> t == u
  {
    hide HeldList, HoldsMap, HoldsVector;
  }

  lemma GoneIsLeft(st: State, t: nat, x: nat)
    requires VectorInv(st) && Roles(st) && Lists(st) && st.phase(x) == Gone
    ensures x !in st.vector && st.queue(x) == [] && DeletingOf(st.pc(t)) != Some(x) && HeldList(st.pc(t)) != Some(x)
  {
    assert Left(st, x);
    hide DeletingOf, HeldList, AtList;
  }

  // ---------- deadlock ----------

  /** Thread `t` can move. */
  ghost predicate CanMove(st: State, t: nat) { exists a: Action :: Step(st, t, a).Some? }

  /** Who holds the lock that `t` waits for. */
  function WaitsFor(st: State, t: nat): Option<nat> {
    var pc := st.pc(t);
    if pc.WantMap? || pc.AddMap? then st.mapLock
    else if pc.Polling? || pc.WantVector? || pc.AddVector? then st.vectorLock
    else if pc.MapBlock? || pc.SockBlock? then st.listLock(pc.x)
    else if pc.Search? && pc.x in st.vector then st.listLock(pc.x)
    else if pc.Scan? && pc.i < |st.vector| then st.listLock(st.vector[pc.i])
    else None
  }

  /** A push that would follow the deletion of its session. */
  predicate Late(st: State, t: nat) {
    var pc := st.pc(t);
    (pc.MapBlock? || pc.SockBlock?) && Left(st, pc.x)
  }

  /** A thread that is at work can move exactly when it waits for nobody. */
  lemma MovesUnlessWaiting(st: State, t: nat)
    requires !st.pc(t).Idle? && !Late(st, t)
    ensures CanMove(st, t) <==> WaitsFor(st, t) == None
  {
    var b: nat := if st.free != {} then (var b :| b in st.free; b) else 0;
    if WaitsFor(st, t) == None {
      assert Step(st, t, Go(b)).Some?;
    } else {
      forall a: Action ensures Step(st, t, a) == None {
      }
    }
  }

  /** Somebody who holds a list waits for nobody. */
  predicate ListHolder(st: State, u: nat) { !st.pc(u).Idle? && !Late(st, u) && WaitsFor(st, u) == None }

  lemma HeldListMoves(st: State, u: nat)
    requires HeldList(st.pc(u)).Some?
    ensures ListHolder(st, u)
  {
    hide Left;
  }

  /** Whoever holds a lock that is waited for says so by its place. */
  lemma WaitedForHolds(st: State, t: nat, u: nat)
    requires Locks(st) && WaitsFor(st, t) == Some(u)
    ensures HoldsMap(st.pc(u)) || HoldsVector(st.pc(u)) || HeldList(st.pc(u)).Some?
  {
    hide HoldsMap, HoldsVector, HeldList;
  }

  /** The holder of the map or the vector waits for a list at most. */
  lemma HolderWaitsForList(st: State, u: nat)
    requires Locks(st) && (HoldsMap(st.pc(u)) || HoldsVector(st.pc(u))) && WaitsFor(st, u).Some?
    ensures HeldList(st.pc(WaitsFor(st, u).value)).Some?
  {
    var pc := st.pc(u);
    assert pc.MapBlock? || pc.Search? || pc.Scan?;
    hide HoldsMap, HoldsVector, HeldList;
  }

  lemma LateHoldsMap(st: State, u: nat)
    requires Locks(st) && Late(st, u) && (HoldsMap(st.pc(u)) || HoldsVector(st.pc(u)))
    ensures st.mapLock == Some(u)
  {
    assert HoldsMap(st.pc(u));
    hide HoldsMap, HoldsVector, HeldList;
  }

  lemma HolderIsBusy(st: State, u: nat)
    requires HoldsMap(st.pc(u)) || HoldsVector(st.pc(u))
    ensures !st.pc(u).Idle?
  {
  }

  /** The holder of a list waits for nobody; the holder of the map or the vector waits for a list at most; and only the
      holder of the map can be late. */
  lemma Hierarchy(st: State, t: nat, u: nat)
    requires Locks(st) && WaitsFor(st, t) == Some(u)
    ensures !st.pc(u).Idle? && (Late(st, u) ==> st.mapLock == Some(u))
    ensures WaitsFor(st, u).Some? ==> ListHolder(st, WaitsFor(st, u).value)
  {
    hide Locks, WaitsFor, Late, HoldsMap, HoldsVector, HeldList;
    WaitedForHolds(st, t, u);
    if HeldList(st.pc(u)).Some? {
      HeldListMoves(st, u);
    } else {
      HolderIsBusy(st, u);
      if Late(st, u) {
        LateHoldsMap(st, u);
      }
      if WaitsFor(st, u).Some? {
        HolderWaitsForList(st, u);
        HeldListMoves(st, WaitsFor(st, u).value);
      }
    }
  }

  /** Main result: there is no deadlock. After every run, whoever is at work and not late can move, or waits for a
      thread that can, or for one that waits for a thread that can, unless the session map is held by a late push. */
  lemma NoDeadlock(pool: set<nat>, moves: seq<Move>, t: nat)
    requires Run(Init(pool), moves).Some?
    requires var st := Run(Init(pool), moves).value; !Late(st, t) && (st.mapLock.Some? ==> !Late(st, st.mapLock.value))
    ensures var st := Run(Init(pool), moves).value;
            st.pc(t).Idle? || CanMove(st, t)
            || (WaitsFor(st, t).Some?
                && var u := WaitsFor(st, t).value;
                   CanMove(st, u) || (WaitsFor(st, u).Some? && CanMove(st, WaitsFor(st, u).value)))
  {
    hide *;
    InitInv(pool);
    RunInv(Init(pool), moves);
    var st := Run(Init(pool), moves).value;
    InvParts(st);
    if !st.pc(t).Idle? {
      MovesUnlessWaiting(st, t);
      if WaitsFor(st, t).Some? {
        ChainMoves(st, t);
      }
    }
  }

  lemma ChainMoves(st: State, t: nat)
    requires Locks(st) && WaitsFor(st, t).Some? && (st.mapLock.Some? ==> !Late(st, st.mapLock.value))
    ensures var u := WaitsFor(st, t).value;
            CanMove(st, u) || (WaitsFor(st, u).Some? && CanMove(st, WaitsFor(st, u).value))
  {
    hide Locks, WaitsFor, Late, CanMove;
    var u := WaitsFor(st, t).value;
    Hierarchy(st, t, u);
    MovesUnlessWaiting(st, u);
    if WaitsFor(st, u).Some? {
      MovesUnlessWaiting(st, WaitsFor(st, u).value);
    }
  }
}

/** A Michael-Scott queue run by any number of threads, one atomic Load, CompareAndSwap or Add at a time. */
module LockFreeQueues {
  import opened Arithmetic
  import opened Wrappers

  // ---- The program ------------------------------------------------------

  // Nodes are never reused, so an address is an index into the nodes made so far.
  datatype Node<T> = Node(value: T, next: Option<nat>)

  datatype Call<T> = Push(item: T) | Pop | Peek | IsEmpty | Size

  datatype Answer<T> =
    | Pushed(item: T)
    | Popped(item: T)
    | PopFoundEmpty
    | Peeked(item: T)
    | PeekFoundEmpty
    | IsEmptySaid(empty: bool)
    | SizeSaid(size: int)
  {
    predicate Changes() { Pushed? || Popped? }
  }

  // Where a thread stands, with its local variables.  `at` is the moment (see History) at which
  // the call took effect.
  datatype PC<T> =
    | Idle
    | PushLoadTail(node: nat)
    | PushLoadNext(node: nat, tail: nat)
    | PushCheckTail(node: nat, tail: nat, next: Option<nat>)
    | PushLink(node: nat, tail: nat)
    | PushSwing(node: nat, tail: nat, at: nat)
    | PushCount(node: nat, at: nat)
    | PushHelp(node: nat, tail: nat, succ: nat)
    | PopLoadHead
    | PopLoadTail(head: nat)
    | PopLoadNext(head: nat, tail: nat)
    | PopCheckHead(head: nat, tail: nat, next: Option<nat>, at: nat)
    | PopHelp(tail: nat, succ: nat)
    | PopReadValue(head: nat, succ: nat)
    | PopSwing(head: nat, succ: nat, item: T)
    | PopCount(item: T, at: nat)
    | LookLoadHead(peek: bool)
    | LookLoadNext(peek: bool, head: nat, at: nat)
    | LookReadValue(peek: bool, succ: nat, at: nat)
    | SizeLoad
    | Returning(answer: Answer<T>, at: nat)

  // A moment is the number of links and unlinks so far; the clock counts every step.  A thread's
  // current call was made at moment `since`, by step number `called`.
  datatype Thread<T> = Thread(pc: PC<T>, since: nat, called: nat)

  // The nth completed call of a thread: made at moment `inv`, it took effect at `at` and returned
  // at `resp`, by steps number `called` and `returned`.
  datatype Op<T> = Op(tid: nat, nth: nat, answer: Answer<T>, inv: nat, at: nat, resp: nat, called: nat, returned: nat)

  // One link or unlink: by which thread, in which of its calls.
  datatype Change<T> = Change(tid: nat, nth: nat, answer: Answer<T>)

  // What the proof remembers: every node ever linked, in order; the places of head and tail among
  // them; the moment of each step so far; all changes so far; the completed calls of each thread; and
  // those that changed nothing,
  // in the order in which they returned.
  datatype History<T> = History(
    chain: seq<nat>, h: nat, t: nat, moments: seq<nat>,
    changes: seq<Change<T>>, done: seq<seq<Op<T>>>, looks: seq<Op<T>>)

  datatype State<T> = State(nodes: seq<Node<T>>, head: nat, tail: nat, count: int, threads: seq<Thread<T>>,
                            past: History<T>)
  {
    function Now(): nat { |past.changes| }

    predicate Running(i: nat) { i < |threads| && i < |past.done| }

    function Goto(i: nat, pc: PC<T>): State<T>
      requires i < |threads|
    {
      this.(threads := threads[i := threads[i].(pc := pc)])
    }
  }

  function Init<T>(n: nat, zero: T): State<T> {
    State([Node(zero, None)], 0, 0, 0, seq(n, _ => Thread(Idle, 0, 0)), History([0], 0, 0, [], [], seq(n, _ => []), []))
  }

  function Invoke<T>(s: State<T>, i: nat, call: Call<T>): State<T>
    requires s.Running(i)
  {
    if s.threads[i].pc != Idle then s
    else
      var started := s.(threads := s.threads[i := Thread(Idle, s.Now(), |s.past.moments|)]);
      match call
      case Push(item) =>
        started.(nodes := s.nodes + [Node(item, None)]).Goto(i, PushLoadTail(|s.nodes|))
      case Pop => started.Goto(i, PopLoadHead)
      case Peek => started.Goto(i, LookLoadHead(true))
      case IsEmpty => started.Goto(i, LookLoadHead(false))
      case Size => started.Goto(i, SizeLoad)
  }

  // A thread that is about to read the next field of a node linked to just now will see the link,
  // so its look takes effect at this moment.  Nothing but that mark changes.
  function Noticed<T>(th: Thread<T>, tail: nat, moment: nat): Thread<T> {
    match th.pc
    case LookLoadNext(peek, head, at) => if head == tail then th.(pc := LookLoadNext(peek, head, moment)) else th
    case _ => th
  }

  // CompareAndSwap(tail.next, nil, node): the link is where Push takes effect.
  function Link<T>(s: State<T>, i: nat, node: nat, tail: nat): State<T>
    requires s.Running(i) && tail < |s.nodes| && node < |s.nodes|
  {
    if s.nodes[tail].next != None then s.Goto(i, PushLoadTail(node))
    else
      var change := Change(i, |s.past.done[i]|, Pushed(s.nodes[node].value));
      s.(nodes := s.nodes[tail := s.nodes[tail].(next := Some(node))],
         threads := seq(|s.threads|, j requires 0 <= j < |s.threads| => Noticed(s.threads[j], tail, s.Now() + 1)),
         past := s.past.(chain := s.past.chain + [node], changes := s.past.changes + [change]))
      .Goto(i, PushSwing(node, tail, s.Now()))
  }

  // CompareAndSwap(q.tail, from, to).
  function SwingTail<T>(s: State<T>, from: nat, to: nat): State<T> {
    if s.tail == from then s.(tail := to, past := s.past.(t := s.past.t + 1)) else s
  }

  // CompareAndSwap(q.head, head, next): the unlink is where a successful Pop takes effect.
  function Unlink<T>(s: State<T>, i: nat, head: nat, succ: nat, item: T): State<T>
    requires s.Running(i)
  {
    if s.head != head then s.Goto(i, PopLoadHead)
    else
      var change := Change(i, |s.past.done[i]|, Popped(item));
      s.(head := succ, past := s.past.(h := s.past.h + 1, changes := s.past.changes + [change]))
      .Goto(i, PopCount(item, s.Now()))
  }

  function Return<T>(s: State<T>, i: nat, answer: Answer<T>, at: nat): State<T>
    requires s.Running(i)
  {
    var th := s.threads[i];
    var op := Op(i, |s.past.done[i]|, answer, th.since, at, s.Now(), th.called, |s.past.moments|);
    var looks := if answer.Changes() then s.past.looks else s.past.looks + [op];
    s.(past := s.past.(done := s.past.done[i := s.past.done[i] + [op]], looks := looks)).Goto(i, Idle)
  }

  // The addresses a thread is about to follow.
  predicate Dereferences<T>(pc: PC<T>, n: nat) {
    match pc
    case PushLoadNext(node, tail) => node < n && tail < n
    case PushLink(node, tail) => node < n && tail < n
    case PopLoadNext(head, tail) => head < n
    case PopReadValue(head, succ) => succ < n
    case LookLoadNext(peek, head, at) => head < n
    case LookReadValue(peek, succ, at) => succ < n
    case PopCheckHead(head, tail, next, at) => head != tail ==> next.Some?
    case _ => true
  }

  // The next atomic step of thread i.
  function Step<T>(s: State<T>, i: nat): State<T>
    requires s.Running(i) && Dereferences(s.threads[i].pc, |s.nodes|)
  {
    match s.threads[i].pc
    case Idle => s
    case PushLoadTail(node) => s.Goto(i, PushLoadNext(node, s.tail))
    case PushLoadNext(node, tail) => s.Goto(i, PushCheckTail(node, tail, s.nodes[tail].next))
    case PushCheckTail(node, tail, next) =>
      if tail != s.tail then s.Goto(i, PushLoadTail(node))
      else if next == None then s.Goto(i, PushLink(node, tail))
      else s.Goto(i, PushHelp(node, tail, next.value))
    case PushLink(node, tail) => Link(s, i, node, tail)
    case PushSwing(node, tail, at) => SwingTail(s, tail, node).Goto(i, PushCount(node, at))
    case PushCount(node, at) =>
      if node < |s.nodes| then s.(count := s.count + 1).Goto(i, Returning(Pushed(s.nodes[node].value), at)) else s
    case PushHelp(node, tail, succ) => SwingTail(s, tail, succ).Goto(i, PushLoadTail(node))
    case PopLoadHead => s.Goto(i, PopLoadTail(s.head))
    case PopLoadTail(head) => s.Goto(i, PopLoadNext(head, s.tail))
    case PopLoadNext(head, tail) => s.Goto(i, PopCheckHead(head, tail, s.nodes[head].next, s.Now()))
    case PopCheckHead(head, tail, next, at) =>
      if head != s.head then s.Goto(i, PopLoadHead)
      else if head != tail then s.Goto(i, PopReadValue(head, next.value))
      else if next == None then s.Goto(i, Returning(PopFoundEmpty, at))
      else s.Goto(i, PopHelp(tail, next.value))
    case PopHelp(tail, succ) => SwingTail(s, tail, succ).Goto(i, PopLoadHead)
    case PopReadValue(head, succ) => s.Goto(i, PopSwing(head, succ, s.nodes[succ].value))
    case PopSwing(head, succ, item) => Unlink(s, i, head, succ, item)
    case PopCount(item, at) => s.(count := s.count - 1).Goto(i, Returning(Popped(item), at))
    case LookLoadHead(peek) => s.Goto(i, LookLoadNext(peek, s.head, s.Now()))
    case LookLoadNext(peek, head, at) => (
      match s.nodes[head].next
      case None => s.Goto(i, Returning(if peek then PeekFoundEmpty else IsEmptySaid(true), s.Now()))
      case Some(succ) => s.Goto(i, LookReadValue(peek, succ, at)))
    case LookReadValue(peek, succ, at) =>
      s.Goto(i, Returning(if peek then Peeked(s.nodes[succ].value) else IsEmptySaid(false), at))
    case SizeLoad => s.Goto(i, Returning(SizeSaid(s.count), s.Now()))
    case Returning(answer, at) => Return(s, i, answer, at)
  }

  // ---- The specification ------------------------------------------------

  // What a FIFO queue holds after these answers, when it could have given them.
  ghost function Fifo<T>(answers: seq<Answer<T>>): Option<seq<T>> {
    if answers == [] then Some([])
    else
      match Fifo(answers[..|answers| - 1])
      case None => None
      case Some(q) => After(q, answers[|answers| - 1])
  }

  ghost function After<T>(q: seq<T>, answer: Answer<T>): Option<seq<T>> {
    match answer
    case Pushed(x) => Some(q + [x])
    case Popped(x) => if q != [] && q[0] == x then Some(q[1..]) else None
    case PopFoundEmpty => if q == [] then Some(q) else None
    case Peeked(x) => if q != [] && q[0] == x then Some(q) else None
    case PeekFoundEmpty => if q == [] then Some(q) else None
    case IsEmptySaid(b) => if b == (q == []) then Some(q) else None
    case SizeSaid(n) => Some(q)
  }

  function Answers<T>(changes: seq<Change<T>>): (a: seq<Answer<T>>)
    ensures |a| == |changes|
  {
    seq(|changes|, k requires 0 <= k < |changes| => changes[k].answer)
  }

  // The queue as it was at moment k.
  ghost function QueueAt<T>(past: History<T>, k: nat): Option<seq<T>>
    requires k <= |past.changes|
  {
    Fifo(Answers(past.changes[..k]))
  }

  // ---- Runs -------------------------------------------------------------

  datatype Action<T> = Call(tid: nat, call: Call<T>) | Run(tid: nat)

  function Apply<T>(s: State<T>, a: Action<T>): State<T> {
    if !s.Running(a.tid) then s
    else
      var s' := match a
        case Call(i, call) => Invoke(s, i, call)
        case Run(i) => if Dereferences(s.threads[i].pc, |s.nodes|) then Step(s, i) else s;
      s'.(past := s'.past.(moments := s'.past.moments + [s.Now()]))
  }

  function Exec<T>(n: nat, zero: T, schedule: seq<Action<T>>): State<T> {
    if schedule == [] then Init(n, zero)
    else Apply(Exec(n, zero, schedule[..|schedule| - 1]), schedule[|schedule| - 1])
  }

  // ---- The invariant ----------------------------------------------------

  // Where p stands in the chain.
  function Place(chain: seq<nat>, p: nat): (k: nat)
    requires p in chain
    ensures k < |chain| && chain[k] == p
  {
    if chain[0] == p then 0 else 1 + Place(chain[1..], p)
  }

  lemma {:induction false} PlaceInPrefix(chain: seq<nat>, longer: seq<nat>, p: nat)
    requires p in chain && chain <= longer
    ensures Place(longer, p) == Place(chain, p)
  {
    if chain[0] != p { PlaceInPrefix(chain[1..], longer[1..], p); }
  }

  ghost predicate Distinct(chain: seq<nat>) {
    forall k, l {:trigger chain[k], chain[l]} :: 0 <= k < l < |chain| ==> chain[k] != chain[l]
  }

  ghost predicate Linked<T>(s: State<T>, p: nat, limit: nat) {
    p in s.past.chain && p < |s.nodes| && Place(s.past.chain, p) <= limit
  }

  ghost predicate Follows<T>(s: State<T>, p: nat, succ: nat, limit: nat) {
    Linked(s, p, limit) && s.nodes[p].next == Some(succ) && succ < |s.nodes|
  }

  // The kth node of the chain links to the next one.
  ghost predicate LinkAt<T>(s: State<T>, k: nat)
    requires k < |s.past.chain|
  {
    && s.past.chain[k] < |s.nodes|
    && s.nodes[s.past.chain[k]].next == if k + 1 < |s.past.chain| then Some(s.past.chain[k + 1]) else None
  }

  ghost predicate Shape<T>(s: State<T>) {
    var past := s.past;
    && (forall k {:trigger past.chain[k]} :: 0 <= k < |past.chain| ==> past.chain[k] < |s.nodes|)
    && Distinct(past.chain)
    && (forall k {:trigger LinkAt(s, k)} :: 0 <= k < |past.chain| ==> LinkAt(s, k))
    && past.h <= past.t < |past.chain| <= past.t + 2
    && s.head == past.chain[past.h] && s.tail == past.chain[past.t]
  }

  // The values that have been pushed and not popped.
  ghost function Contents<T>(s: State<T>): (q: seq<T>)
    requires Shape(s)
    ensures |q| == |s.past.chain| - 1 - s.past.h
  {
    seq(|s.past.chain| - 1 - s.past.h, k requires 0 <= k < |s.past.chain| - 1 - s.past.h =>
      s.nodes[s.past.chain[s.past.h + 1 + k]].value)
  }

  // The node that a pushing thread has not linked yet.
  function Private<T>(pc: PC<T>): Option<nat> {
    match pc
    case PushLoadTail(node) => Some(node)
    case PushLoadNext(node, _) => Some(node)
    case PushCheckTail(node, _, _) => Some(node)
    case PushLink(node, _) => Some(node)
    case PushHelp(node, _, _) => Some(node)
    case _ => None
  }

  ghost predicate Unlinked<T>(s: State<T>, node: nat) {
    node < |s.nodes| && node !in s.past.chain && s.nodes[node].next == None
  }

  // The call answered by a change at moment `at`.
  ghost predicate Took<T>(s: State<T>, i: nat, since: nat, at: nat, answer: Answer<T>) {
    since <= at < s.Now() && i < |s.past.done| && s.past.changes[at] == Change(i, |s.past.done[i]|, answer)
  }

  // The queue would have given this answer at moment `at`.
  ghost predicate Seen<T>(past: History<T>, since: nat, at: nat, answer: Answer<T>) {
    && since <= at <= |past.changes|
    && QueueAt(past, at).Some? && After(QueueAt(past, at).value, answer).Some?
  }

  function LookAnswer<T>(peek: bool, x: T): Answer<T> {
    if peek then Peeked(x) else IsEmptySaid(false)
  }

  // What thread i knows when it stands at th.pc.
  ghost predicate LocalOK<T>(s: State<T>, i: nat, th: Thread<T>) {
    && th.since <= s.Now()
    && (Private(th.pc).Some? ==> Unlinked(s, Private(th.pc).value))
    && match th.pc
       case Idle => true
       case PushLoadTail(node) => true
       case PushLoadNext(node, tail) => Linked(s, tail, s.past.t)
       case PushCheckTail(node, tail, next) =>
         Linked(s, tail, s.past.t) && (next.Some? ==> Follows(s, tail, next.value, s.past.t))
       case PushLink(node, tail) => Linked(s, tail, s.past.t)
       case PushSwing(node, tail, at) =>
         Follows(s, tail, node, s.past.t) && Took(s, i, th.since, at, Pushed(s.nodes[node].value))
       case PushCount(node, at) => node < |s.nodes| && Took(s, i, th.since, at, Pushed(s.nodes[node].value))
       case PushHelp(node, tail, succ) => Follows(s, tail, succ, s.past.t)
       case PopLoadHead => true
       case PopLoadTail(head) => Linked(s, head, s.past.h)
       case PopLoadNext(head, tail) =>
         && Linked(s, head, s.past.h) && Linked(s, tail, s.past.t)
         && Place(s.past.chain, head) <= Place(s.past.chain, tail)
       case PopCheckHead(head, tail, next, at) =>
         && Linked(s, head, s.past.h) && Linked(s, tail, s.past.t)
         && Place(s.past.chain, head) <= Place(s.past.chain, tail)
         && (next.Some? ==> Follows(s, head, next.value, s.past.h))
         && (next.None? ==> head == tail && (head == s.head ==> Seen(s.past, th.since, at, PopFoundEmpty)))
       case PopHelp(tail, succ) => Follows(s, tail, succ, s.past.t)
       case PopReadValue(head, succ) => Follows(s, head, succ, s.past.h) && Place(s.past.chain, head) < s.past.t
       case PopSwing(head, succ, item) =>
         Follows(s, head, succ, s.past.h) && Place(s.past.chain, head) < s.past.t && s.nodes[succ].value == item
       case PopCount(item, at) => Took(s, i, th.since, at, Popped(item))
       case LookLoadHead(peek) => true
       case LookLoadNext(peek, head, at) =>
         && Linked(s, head, s.past.h)
         && (s.nodes[head].next.Some? ==>
               var succ := s.nodes[head].next.value;
               succ < |s.nodes| && Seen(s.past, th.since, at, LookAnswer(peek, s.nodes[succ].value)))
       case LookReadValue(peek, succ, at) =>
         succ < |s.nodes| && Seen(s.past, th.since, at, LookAnswer(peek, s.nodes[succ].value))
       case SizeLoad => true
       case Returning(answer, at) =>
         if answer.Changes() then Took(s, i, th.since, at, answer) else Seen(s.past, th.since, at, answer)
  }

  // ---- How the shared state moves ---------------------------------------

  // Everything a thread may have read stays true: values and links are never changed, head and
  // tail only move forward, and changes are only added.
  ghost predicate Grows<T>(s: State<T>, s': State<T>) {
    && |s.nodes| <= |s'.nodes|
    && (forall k {:trigger s'.nodes[k]} :: 0 <= k < |s.nodes| ==>
          s'.nodes[k].value == s.nodes[k].value && (s.nodes[k].next.Some? ==> s'.nodes[k].next == s.nodes[k].next))
    && s.past.chain <= s'.past.chain && s.past.h <= s'.past.h && s.past.t <= s'.past.t
    && s.past.changes <= s'.past.changes
  }

  lemma LinkedStays<T>(s: State<T>, s': State<T>, p: nat, limit: nat, limit': nat)
    requires Grows(s, s') && Linked(s, p, limit) && limit <= limit'
    ensures Linked(s', p, limit') && Place(s'.past.chain, p) == Place(s.past.chain, p)
  {
    PlaceInPrefix(s.past.chain, s'.past.chain, p);
  }

  lemma PlaceOf(chain: seq<nat>, k: nat)
    requires Distinct(chain) && k < |chain|
    ensures Place(chain, chain[k]) == k
  {
    var l := Place(chain, chain[k]);
    assert chain[k] == chain[l];
  }

  lemma HeadNeverReturns<T>(s: State<T>, s': State<T>, p: nat)
    requires Shape(s) && Shape(s') && Grows(s, s') && Linked(s, p, s.past.h) && p == s'.head
    ensures p == s.head
  {
    LinkedStays(s, s', p, s.past.h, s'.past.h);
    PlaceOf(s'.past.chain, s'.past.h);
    PlaceOf(s.past.chain, s.past.h);
  }

  lemma SeenStays<T>(s: State<T>, s': State<T>, since: nat, at: nat, answer: Answer<T>)
    requires s.past.changes <= s'.past.changes && Seen(s.past, since, at, answer)
    ensures Seen(s'.past, since, at, answer)
  {
    assert s'.past.changes[..at] == s.past.changes[..at];
  }

  predicate Pushing<T>(pc: PC<T>) {
    pc.PushLoadNext? || pc.PushCheckTail? || pc.PushLink? || pc.PushSwing? || pc.PushCount? || pc.PushHelp?
  }

  lemma PushStays<T>(s: State<T>, s': State<T>, i: nat, th: Thread<T>)
    requires Shape(s) && Shape(s') && Grows(s, s') && LocalOK(s, i, th)
    requires i < |s.past.done| == |s'.past.done| && |s'.past.done[i]| == |s.past.done[i]|
    requires Pushing(th.pc) && (Private(th.pc).Some? ==> Unlinked(s', Private(th.pc).value))
    ensures LocalOK(s', i, th)
  {
    if !th.pc.PushCount? { LinkedStays(s, s', th.pc.tail, s.past.t, s'.past.t); }
  }

  lemma PopStays<T>(s: State<T>, s': State<T>, i: nat, th: Thread<T>)
    requires Shape(s) && Shape(s') && Grows(s, s') && LocalOK(s, i, th)
    requires i < |s.past.done| == |s'.past.done| && |s'.past.done[i]| == |s.past.done[i]|
    requires th.pc.PopCheckHead? || th.pc.PopLoadNext?
    ensures LocalOK(s', i, th)
  {
    LinkedStays(s, s', th.pc.head, s.past.h, s'.past.h);
    LinkedStays(s, s', th.pc.tail, s.past.t, s'.past.t);
    if th.pc.PopCheckHead? && th.pc.next.None? && th.pc.head == s'.head {
      HeadNeverReturns(s, s', th.pc.head);
      SeenStays(s, s', th.since, th.pc.at, PopFoundEmpty);
    }
  }

  lemma LookStays<T>(s: State<T>, s': State<T>, i: nat, th: Thread<T>)
    requires Shape(s) && Shape(s') && Grows(s, s') && LocalOK(s, i, th)
    requires i < |s.past.done| == |s'.past.done| && |s'.past.done[i]| == |s.past.done[i]|
    requires th.pc.LookLoadNext?
    requires s.nodes[th.pc.head].next.None? ==> s'.nodes[th.pc.head].next.None?
    ensures LocalOK(s', i, th)
  {
    var head := th.pc.head;
    LinkedStays(s, s', head, s.past.h, s'.past.h);
    if s.nodes[head].next.Some? {
      SeenStays(s, s', th.since, th.pc.at, LookAnswer(th.pc.peek, s.nodes[s.nodes[head].next.value].value));
    }
  }

  // A thread that neither steps nor is noticed keeps what it knows.
  lemma LocalStays<T>(s: State<T>, s': State<T>, i: nat, th: Thread<T>)
    requires Shape(s) && Shape(s') && Grows(s, s') && LocalOK(s, i, th)
    requires i < |s.past.done| == |s'.past.done| && |s'.past.done[i]| == |s.past.done[i]|
    requires Private(th.pc).Some? ==> Unlinked(s', Private(th.pc).value)
    requires th.pc.LookLoadNext? && s.nodes[th.pc.head].next.None? ==> s'.nodes[th.pc.head].next.None?
    ensures LocalOK(s', i, th)
  {
    if Pushing(th.pc) {
      PushStays(s, s', i, th);
    } else if th.pc.PopLoadNext? || th.pc.PopCheckHead? {
      PopStays(s, s', i, th);
    } else if th.pc.LookLoadNext? {
      LookStays(s, s', i, th);
    } else {
      match th.pc
      case PopLoadTail(head) => LinkedStays(s, s', head, s.past.h, s'.past.h);
      case PopHelp(tail, succ) => LinkedStays(s, s', tail, s.past.t, s'.past.t);
      case PopReadValue(head, succ) => LinkedStays(s, s', head, s.past.h, s'.past.h);
      case PopSwing(head, succ, item) => LinkedStays(s, s', head, s.past.h, s'.past.h);
      case LookReadValue(peek, succ, at) => SeenStays(s, s', th.since, at, LookAnswer(peek, s.nodes[succ].value));
      case Returning(answer, at) =>
        if !answer.Changes() { SeenStays(s, s', th.since, at, answer); }
      case _ =>
    }
  }

  // ---- Every step keeps the invariant -----------------------------------

  ghost predicate Apart<T>(s: State<T>, i: nat, j: nat)
    requires i < |s.threads| && j < |s.threads|
  {
    i != j && Private(s.threads[i].pc).Some? ==> Private(s.threads[i].pc) != Private(s.threads[j].pc)
  }

  ghost predicate Threads<T>(s: State<T>) {
    && |s.past.done| == |s.threads|
    && (forall i {:trigger LocalOK(s, i, s.threads[i])} :: 0 <= i < |s.threads| ==> LocalOK(s, i, s.threads[i]))
    && (forall i, j {:trigger Apart(s, i, j)} :: 0 <= i < |s.threads| && 0 <= j < |s.threads| ==> Apart(s, i, j))
  }

  /** The shared structure is a queue that holds what the changes so far leave in a FIFO queue. */
  ghost predicate Core<T>(s: State<T>) {
    Shape(s) && Threads(s) && QueueAt(s.past, s.Now()) == Some(Contents(s))
  }

  // Thread i moves from s to s'; nothing is linked, and at most one node is made.
  ghost predicate Quiet<T>(s: State<T>, s': State<T>, i: nat) {
    && i < |s.threads| == |s'.threads| == |s.past.done| == |s'.past.done|
    && (forall j {:trigger s'.threads[j]} :: 0 <= j < |s.threads| && j != i ==> s'.threads[j] == s.threads[j])
    && (forall j {:trigger s'.past.done[j]} :: 0 <= j < |s.threads| && j != i ==> s'.past.done[j] == s.past.done[j])
    && |s.nodes| <= |s'.nodes|
    && (forall k {:trigger s'.nodes[k]} :: 0 <= k < |s.nodes| ==> s'.nodes[k] == s.nodes[k])
    && s'.past.chain == s.past.chain && s.past.h <= s'.past.h && s.past.t <= s'.past.t
    && s.past.changes <= s'.past.changes
  }

  lemma ThreadsKept<T>(s: State<T>, s': State<T>, i: nat)
    requires Shape(s) && Shape(s') && Threads(s) && Quiet(s, s', i) && LocalOK(s', i, s'.threads[i])
    requires var p := Private(s'.threads[i].pc); p == None || p == Private(s.threads[i].pc) || p == Some(|s.nodes|)
    ensures Threads(s')
  {
    forall j {:trigger LocalOK(s', j, s'.threads[j])} | 0 <= j < |s'.threads| ensures LocalOK(s', j, s'.threads[j]) {
      if j != i {
        assert LocalOK(s, j, s.threads[j]);
        LocalStays(s, s', j, s.threads[j]);
      }
    }
    forall j, k {:trigger Apart(s', j, k)} | 0 <= j < |s'.threads| && 0 <= k < |s'.threads| ensures Apart(s', j, k) {
      assert Apart(s, j, k) && LocalOK(s, j, s.threads[j]) && LocalOK(s, k, s.threads[k]);
    }
  }

  // Thread i only moves on, or moves the tail, or counts, or finishes.
  ghost predicate Still<T>(s: State<T>, s': State<T>, i: nat) {
    && Quiet(s, s', i)
    && s'.past.changes == s.past.changes && s'.past.h == s.past.h && s'.head == s.head
    && s'.past.t < |s.past.chain| && s'.tail == s.past.chain[s'.past.t]
  }

  lemma StillContents<T>(s: State<T>, s': State<T>, i: nat)
    requires Shape(s) && Still(s, s', i)
    ensures Shape(s') && Contents(s') == Contents(s)
  {
    forall k {:trigger LinkAt(s', k)} | 0 <= k < |s'.past.chain| ensures LinkAt(s', k) { assert LinkAt(s, k); }
  }

  lemma CoreKept<T>(s: State<T>, s': State<T>, i: nat)
    requires Core(s) && Still(s, s', i) && LocalOK(s', i, s'.threads[i])
    requires var p := Private(s'.threads[i].pc); p == None || p == Private(s.threads[i].pc) || p == Some(|s.nodes|)
    ensures Core(s')
  {
    StillContents(s, s', i);
    ThreadsKept(s, s', i);
  }

  lemma NewNodeUnlinked<T>(s: State<T>)
    requires Shape(s)
    ensures |s.nodes| !in s.past.chain
  {
    forall k | 0 <= k < |s.past.chain| ensures s.past.chain[k] != |s.nodes| {}
  }

  lemma InvokeKeeps<T>(s: State<T>, i: nat, call: Call<T>)
    requires Core(s) && s.Running(i)
    ensures Core(Invoke(s, i, call))
  {
    if s.threads[i].pc == Idle {
      NewNodeUnlinked(s);
      CoreKept(s, Invoke(s, i, call), i);
    }
  }

  // The tail moves only to the node that follows it.
  lemma SwingForward<T>(s: State<T>, from: nat, to: nat)
    requires Shape(s) && Follows(s, from, to, s.past.t)
    ensures var s' := SwingTail(s, from, to); s'.past.t < |s.past.chain| && s'.tail == s.past.chain[s'.past.t]
  {
    assert LinkAt(s, s.past.t);
  }

  lemma Successor<T>(s: State<T>, p: nat, limit: nat)
    requires Shape(s) && Linked(s, p, limit)
    ensures var k := Place(s.past.chain, p);
      s.nodes[p].next == if k + 1 < |s.past.chain| then Some(s.past.chain[k + 1]) else None
    ensures s.nodes[p].next.Some? ==> s.nodes[p].next.value < |s.nodes|
  {
    assert LinkAt(s, Place(s.past.chain, p));
  }

  lemma PushReadKeeps<T>(s: State<T>, i: nat)
    requires Core(s) && s.Running(i)
    requires var pc := s.threads[i].pc; pc.PushLoadTail? || pc.PushCount?
    ensures Dereferences(s.threads[i].pc, |s.nodes|) && Core(Step(s, i))
  {
    assert LocalOK(s, i, s.threads[i]);
    PlaceOf(s.past.chain, s.past.t);
    CoreKept(s, Step(s, i), i);
  }

  lemma PushCheckKeeps<T>(s: State<T>, i: nat)
    requires Core(s) && s.Running(i) && s.threads[i].pc.PushCheckTail?
    ensures Core(Step(s, i))
  {
    assert LocalOK(s, i, s.threads[i]);
    CoreKept(s, Step(s, i), i);
  }

  lemma PushLoadNextKeeps<T>(s: State<T>, i: nat)
    requires Core(s) && s.Running(i) && s.threads[i].pc.PushLoadNext?
    ensures Dereferences(s.threads[i].pc, |s.nodes|) && Core(Step(s, i))
  {
    assert LocalOK(s, i, s.threads[i]);
    Successor(s, s.threads[i].pc.tail, s.past.t);
    CoreKept(s, Step(s, i), i);
  }

  lemma PushSwingKeeps<T>(s: State<T>, i: nat)
    requires Core(s) && s.Running(i) && (s.threads[i].pc.PushSwing? || s.threads[i].pc.PushHelp?)
    ensures Core(Step(s, i))
  {
    assert LocalOK(s, i, s.threads[i]);
    var to := if s.threads[i].pc.PushSwing? then s.threads[i].pc.node else s.threads[i].pc.succ;
    SwingForward(s, s.threads[i].pc.tail, to);
    CoreKept(s, Step(s, i), i);
  }

  lemma PopReadKeeps<T>(s: State<T>, i: nat)
    requires Core(s) && s.Running(i) && (s.threads[i].pc.PopLoadHead? || s.threads[i].pc.PopLoadTail?)
    ensures Core(Step(s, i))
  {
    assert LocalOK(s, i, s.threads[i]);
    PlaceOf(s.past.chain, s.past.h);
    PlaceOf(s.past.chain, s.past.t);
    CoreKept(s, Step(s, i), i);
  }

  lemma PopLoadNextKeeps<T>(s: State<T>, i: nat)
    requires Core(s) && s.Running(i) && s.threads[i].pc.PopLoadNext?
    ensures Dereferences(s.threads[i].pc, |s.nodes|) && Core(Step(s, i))
  {
    assert LocalOK(s, i, s.threads[i]);
    Successor(s, s.threads[i].pc.head, s.past.h);
    EmptySeen(s, s.threads[i].since);
    CoreKept(s, Step(s, i), i);
  }

  lemma EmptySeen<T>(s: State<T>, since: nat)
    requires Core(s) && since <= s.Now()
    ensures s.nodes[s.head].next.None? ==>
      Seen(s.past, since, s.Now(), PopFoundEmpty) && Seen(s.past, since, s.Now(), PeekFoundEmpty)
      && Seen(s.past, since, s.Now(), IsEmptySaid(true))
    ensures s.nodes[s.head].next.Some? ==>
      var succ := s.nodes[s.head].next.value;
      && succ < |s.nodes| && Seen(s.past, since, s.Now(), Peeked(s.nodes[succ].value))
      && Seen(s.past, since, s.Now(), IsEmptySaid(false))
  {
    assert LinkAt(s, s.past.h);
  }

  lemma PopCheckKeeps<T>(s: State<T>, i: nat)
    requires Core(s) && s.Running(i) && s.threads[i].pc.PopCheckHead?
    ensures Dereferences(s.threads[i].pc, |s.nodes|) && Core(Step(s, i))
  {
    assert LocalOK(s, i, s.threads[i]);
    if s.threads[i].pc.head != s.head { PopRetryKeeps(s, i); } else { PopGoKeeps(s, i); }
  }

  lemma PopRetryKeeps<T>(s: State<T>, i: nat)
    requires Core(s) && s.Running(i) && s.threads[i].pc.PopCheckHead? && s.threads[i].pc.head != s.head
    ensures Dereferences(s.threads[i].pc, |s.nodes|) && Core(Step(s, i))
  {
    assert LocalOK(s, i, s.threads[i]);
    CoreKept(s, Step(s, i), i);
  }

  lemma PopGoKeeps<T>(s: State<T>, i: nat)
    requires Core(s) && s.Running(i) && s.threads[i].pc.PopCheckHead? && s.threads[i].pc.head == s.head
    ensures Dereferences(s.threads[i].pc, |s.nodes|) && Core(Step(s, i))
  {
    assert LocalOK(s, i, s.threads[i]);
    var head, tail := s.threads[i].pc.head, s.threads[i].pc.tail;
    if head != tail { PopAheadKeeps(s, i); } else { PopLevelKeeps(s, i); }
  }

  lemma PopAheadKeeps<T>(s: State<T>, i: nat)
    requires Core(s) && s.Running(i) && s.threads[i].pc.PopCheckHead?
    requires s.threads[i].pc.head == s.head && s.threads[i].pc.head != s.threads[i].pc.tail
    ensures Dereferences(s.threads[i].pc, |s.nodes|) && Core(Step(s, i))
  {
    assert LocalOK(s, i, s.threads[i]);
    PlaceDiffers(s.past.chain, s.threads[i].pc.head, s.threads[i].pc.tail);
    CoreKept(s, Step(s, i), i);
  }

  lemma PopLevelKeeps<T>(s: State<T>, i: nat)
    requires Core(s) && s.Running(i) && s.threads[i].pc.PopCheckHead?
    requires s.threads[i].pc.head == s.head && s.threads[i].pc.head == s.threads[i].pc.tail
    ensures Core(Step(s, i))
  {
    assert LocalOK(s, i, s.threads[i]);
    CoreKept(s, Step(s, i), i);
  }

  lemma PlaceDiffers(chain: seq<nat>, p: nat, q: nat)
    requires p in chain && q in chain && p != q
    ensures Place(chain, p) != Place(chain, q)
  {
  }

  lemma PopTakeKeeps<T>(s: State<T>, i: nat)
    requires Core(s) && s.Running(i) && (s.threads[i].pc.PopReadValue? || s.threads[i].pc.PopCount?)
    ensures Dereferences(s.threads[i].pc, |s.nodes|) && Core(Step(s, i))
  {
    assert LocalOK(s, i, s.threads[i]);
    CoreKept(s, Step(s, i), i);
  }

  lemma PopHelpKeeps<T>(s: State<T>, i: nat)
    requires Core(s) && s.Running(i) && s.threads[i].pc.PopHelp?
    ensures Core(Step(s, i))
  {
    assert LocalOK(s, i, s.threads[i]);
    SwingForward(s, s.threads[i].pc.tail, s.threads[i].pc.succ);
    CoreKept(s, Step(s, i), i);
  }

  // A node without a successor that the head has reached is the head.
  lemma LastIsHead<T>(s: State<T>, p: nat)
    requires Shape(s) && Linked(s, p, s.past.h)
    ensures s.nodes[p].next.None? ==> p == s.head
    ensures s.nodes[p].next.Some? ==> s.nodes[p].next.value < |s.nodes|
  {
    assert LinkAt(s, Place(s.past.chain, p));
  }

  lemma LookLoadKeeps<T>(s: State<T>, i: nat)
    requires Core(s) && s.Running(i) && s.threads[i].pc.LookLoadHead?
    ensures Core(Step(s, i))
  {
    assert LocalOK(s, i, s.threads[i]);
    PlaceOf(s.past.chain, s.past.h);
    EmptySeen(s, s.threads[i].since);
    CoreKept(s, Step(s, i), i);
  }

  lemma LookLoadNextKeeps<T>(s: State<T>, i: nat)
    requires Core(s) && s.Running(i) && s.threads[i].pc.LookLoadNext?
    ensures Dereferences(s.threads[i].pc, |s.nodes|) && Core(Step(s, i))
  {
    assert LocalOK(s, i, s.threads[i]);
    EmptySeen(s, s.threads[i].since);
    LastIsHead(s, s.threads[i].pc.head);
    CoreKept(s, Step(s, i), i);
  }

  lemma LookReadKeeps<T>(s: State<T>, i: nat)
    requires Core(s) && s.Running(i) && (s.threads[i].pc.LookReadValue? || s.threads[i].pc.SizeLoad?)
    ensures Dereferences(s.threads[i].pc, |s.nodes|) && Core(Step(s, i))
  {
    assert LocalOK(s, i, s.threads[i]);
    CoreKept(s, Step(s, i), i);
  }

  lemma ReturnKeeps<T>(s: State<T>, i: nat)
    requires Core(s) && s.Running(i) && s.threads[i].pc.Returning?
    ensures Core(Step(s, i))
  {
    assert LocalOK(s, i, s.threads[i]);
    CoreKept(s, Step(s, i), i);
  }

  lemma ChangeApplied<T>(past: History<T>, past': History<T>, change: Change<T>)
    requires past'.changes == past.changes + [change] && QueueAt(past, |past.changes|).Some?
    ensures QueueAt(past', |past'.changes|) == After(QueueAt(past, |past.changes|).value, change.answer)
  {
    var a := Answers(past'.changes);
    assert past'.changes[..|past'.changes|] == past'.changes && past.changes[..|past.changes|] == past.changes;
    assert a[..|a| - 1] == Answers(past.changes);
  }

  // Unlinking: the head moves to the node that follows it, whose value leaves the queue.
  lemma UnlinkKeeps<T>(s: State<T>, i: nat)
    requires Core(s) && s.Running(i) && s.threads[i].pc.PopSwing?
    ensures Core(Step(s, i))
  {
    assert LocalOK(s, i, s.threads[i]);
    var s' := Step(s, i);
    var pc := s.threads[i].pc;
    if s.head != pc.head {
      CoreKept(s, s', i);
    } else {
      PlaceOf(s.past.chain, s.past.h);
      assert LinkAt(s, s.past.h);
      UnlinkShape(s, i, pc.succ, pc.item);
      ThreadsKept(s, s', i);
    }
  }

  lemma UnlinkShape<T>(s: State<T>, i: nat, succ: nat, item: T)
    requires Core(s) && s.Running(i) && s.past.h < s.past.t
    requires succ == s.past.chain[s.past.h + 1] && s.nodes[succ].value == item
    ensures var s' := Unlink(s, i, s.head, succ, item);
      Shape(s') && QueueAt(s'.past, s'.Now()) == Some(Contents(s'))
  {
    var s' := Unlink(s, i, s.head, succ, item);
    forall k {:trigger LinkAt(s', k)} | 0 <= k < |s'.past.chain| ensures LinkAt(s', k) { assert LinkAt(s, k); }
    ChangeApplied(s.past, s'.past, s'.past.changes[s.Now()]);
    assert Contents(s)[1..] == Contents(s');
  }

  // The node that a link appends goes behind the last one, and the tail is not behind it.
  lemma LinkShape<T>(s: State<T>, i: nat, node: nat, tail: nat)
    requires Shape(s) && s.Running(i) && Unlinked(s, node) && Linked(s, tail, s.past.t) && s.nodes[tail].next == None
    ensures var s' := Link(s, i, node, tail);
      && Shape(s') && Grows(s, s') && s'.past.chain == s.past.chain + [node]
      && s.past.t + 1 == |s.past.chain| && tail == s.past.chain[s.past.t]
  {
    var s' := Link(s, i, node, tail);
    Successor(s, tail, s.past.t);
    forall k {:trigger LinkAt(s', k)} | 0 <= k < |s'.past.chain| ensures LinkAt(s', k) {
      if k < |s.past.chain| { assert LinkAt(s, k); }
    }
  }

  lemma LinkQueue<T>(s: State<T>, i: nat, node: nat, tail: nat)
    requires Core(s) && s.Running(i) && Unlinked(s, node) && Linked(s, tail, s.past.t) && s.nodes[tail].next == None
    ensures var s' := Link(s, i, node, tail);
      && Shape(s') && QueueAt(s'.past, s'.Now()) == Some(Contents(s'))
      && Contents(s') == Contents(s) + [s.nodes[node].value]
  {
    var s' := Link(s, i, node, tail);
    LinkShape(s, i, node, tail);
    ChangeApplied(s.past, s'.past, s'.past.changes[s.Now()]);
    assert Contents(s') == Contents(s) + [s.nodes[node].value];
  }

  // A look that will see the link takes effect now: the queue was empty and holds the new value.
  lemma LinkNoticed<T>(s: State<T>, i: nat, node: nat, tail: nat, j: nat)
    requires Core(s) && s.Running(i) && Unlinked(s, node) && Linked(s, tail, s.past.t) && s.nodes[tail].next == None
    requires j < |s.threads| && j != i
    requires s.threads[j].pc.LookLoadNext? && s.threads[j].pc.head == tail
    ensures var s' := Link(s, i, node, tail); LocalOK(s', j, s'.threads[j])
  {
    var s' := Link(s, i, node, tail);
    assert LocalOK(s, j, s.threads[j]);
    LinkShape(s, i, node, tail);
    LinkedStays(s, s', tail, s.past.h, s'.past.h);
    LastIsEmpty(s, tail);
    LinkSeen(s, i, node, tail, s.threads[j].since, s.threads[j].pc.peek);
  }

  // On an empty queue, a look sees the new value.
  lemma LinkSeen<T>(s: State<T>, i: nat, node: nat, tail: nat, since: nat, peek: bool)
    requires Core(s) && s.Running(i) && Unlinked(s, node) && Linked(s, tail, s.past.t) && s.nodes[tail].next == None
    requires Contents(s) == [] && since <= s.Now()
    ensures var s' := Link(s, i, node, tail);
      Seen(s'.past, since, s'.Now(), LookAnswer(peek, s.nodes[node].value))
  {
    LinkQueue(s, i, node, tail);
  }

  // Whoever holds a head without a successor stands before an empty queue.
  lemma LastIsEmpty<T>(s: State<T>, tail: nat)
    requires Core(s) && Linked(s, tail, s.past.h) && s.nodes[tail].next == None
    ensures Contents(s) == []
  {
    LastIsHead(s, tail);
    Successor(s, tail, s.past.h);
    PlaceOf(s.past.chain, s.past.h);
  }

  lemma LinkUnnoticed<T>(s: State<T>, i: nat, node: nat, tail: nat, j: nat)
    requires Core(s) && s.Running(i) && Unlinked(s, node) && Linked(s, tail, s.past.t) && s.nodes[tail].next == None
    requires j < |s.threads| && j != i
    requires Private(s.threads[i].pc) == Some(node)
    requires s.threads[j].pc.LookLoadNext? ==> s.threads[j].pc.head != tail
    ensures var s' := Link(s, i, node, tail); LocalOK(s', j, s'.threads[j])
  {
    var s' := Link(s, i, node, tail);
    assert LocalOK(s, j, s.threads[j]) && Apart(s, i, j);
    LinkShape(s, i, node, tail);
    LocalStays(s, s', j, s.threads[j]);
  }

  lemma LinkOthers<T>(s: State<T>, i: nat, node: nat, tail: nat)
    requires Core(s) && s.Running(i) && Unlinked(s, node) && Linked(s, tail, s.past.t) && s.nodes[tail].next == None
    requires Private(s.threads[i].pc) == Some(node)
    ensures var s' := Link(s, i, node, tail);
      forall j {:trigger LocalOK(s', j, s'.threads[j])} :: 0 <= j < |s'.threads| && j != i ==>
        LocalOK(s', j, s'.threads[j])
  {
    var s' := Link(s, i, node, tail);
    forall j {:trigger LocalOK(s', j, s'.threads[j])} | 0 <= j < |s'.threads| && j != i
      ensures LocalOK(s', j, s'.threads[j])
    {
      if s.threads[j].pc.LookLoadNext? && s.threads[j].pc.head == tail {
        LinkNoticed(s, i, node, tail, j);
      } else {
        LinkUnnoticed(s, i, node, tail, j);
      }
    }
  }

  lemma LinkKeeps<T>(s: State<T>, i: nat)
    requires Core(s) && s.Running(i) && s.threads[i].pc.PushLink?
    ensures Dereferences(s.threads[i].pc, |s.nodes|) && Core(Step(s, i))
  {
    assert LocalOK(s, i, s.threads[i]);
    if s.nodes[s.threads[i].pc.tail].next != None {
      CoreKept(s, Step(s, i), i);
    } else {
      LinkCore(s, i, s.threads[i].pc.node, s.threads[i].pc.tail);
    }
  }

  lemma LinkCore<T>(s: State<T>, i: nat, node: nat, tail: nat)
    requires Core(s) && s.Running(i) && s.threads[i].pc == PushLink(node, tail)
    requires Unlinked(s, node) && Linked(s, tail, s.past.t) && s.nodes[tail].next == None
    ensures Core(Link(s, i, node, tail))
  {
    var s' := Link(s, i, node, tail);
    assert LocalOK(s, i, s.threads[i]);
    LinkQueue(s, i, node, tail);
    LinkShape(s, i, node, tail);
    PlaceInPrefix(s.past.chain, s'.past.chain, tail);
    LinkOthers(s, i, node, tail);
    assert LocalOK(s', i, s'.threads[i]);
    forall j, k {:trigger Apart(s', j, k)} | 0 <= j < |s'.threads| && 0 <= k < |s'.threads| ensures Apart(s', j, k) {
      assert Apart(s, j, k);
    }
  }

  /** Every action of every thread keeps the invariant, and no thread ever follows a nil pointer. */
  lemma ApplyKeeps<T>(s: State<T>, a: Action<T>)
    requires Core(s)
    ensures Core(Apply(s, a))
    ensures a.Run? && s.Running(a.tid) ==> Dereferences(s.threads[a.tid].pc, |s.nodes|)
  {
    if s.Running(a.tid) {
      var i := a.tid;
      match a {
        case Call(_, call) => InvokeKeeps(s, i, call); ClockKeeps(Invoke(s, i, call), s.Now());
        case Run(_) =>
          StepKeeps(s, i);
          ClockKeeps(Step(s, i), s.Now());
      }
    }
  }

  lemma ClockKeeps<T>(s: State<T>, moment: nat)
    requires Core(s)
    ensures Core(s.(past := s.past.(moments := s.past.moments + [moment])))
  {
    var s' := s.(past := s.past.(moments := s.past.moments + [moment]));
    forall k {:trigger LinkAt(s', k)} | 0 <= k < |s'.past.chain| ensures LinkAt(s', k) { assert LinkAt(s, k); }
    forall j {:trigger LocalOK(s', j, s'.threads[j])} | 0 <= j < |s'.threads| ensures LocalOK(s', j, s'.threads[j]) {
      assert LocalOK(s, j, s.threads[j]);
      LocalStays(s, s', j, s.threads[j]);
    }
    forall j, k {:trigger Apart(s', j, k)} | 0 <= j < |s'.threads| && 0 <= k < |s'.threads| ensures Apart(s', j, k) {
      assert Apart(s, j, k);
    }
    assert Contents(s') == Contents(s);
  }

  lemma StepKeeps<T>(s: State<T>, i: nat)
    requires Core(s) && s.Running(i)
    ensures Dereferences(s.threads[i].pc, |s.nodes|) && Core(Step(s, i))
  {
    match s.threads[i].pc
    case Idle =>
    case PushLoadTail(_) => PushReadKeeps(s, i);
    case PushLoadNext(_, _) => PushLoadNextKeeps(s, i);
    case PushCheckTail(_, _, _) => PushCheckKeeps(s, i);
    case PushLink(_, _) => LinkKeeps(s, i);
    case PushSwing(_, _, _) => PushSwingKeeps(s, i);
    case PushCount(_, _) => PushReadKeeps(s, i);
    case PushHelp(_, _, _) => PushSwingKeeps(s, i);
    case PopLoadHead => PopReadKeeps(s, i);
    case PopLoadTail(_) => PopReadKeeps(s, i);
    case PopLoadNext(_, _) => PopLoadNextKeeps(s, i);
    case PopCheckHead(_, _, _, _) => PopCheckKeeps(s, i);
    case PopHelp(_, _) => PopHelpKeeps(s, i);
    case PopReadValue(_, _) => PopTakeKeeps(s, i);
    case PopSwing(_, _, _) => UnlinkKeeps(s, i);
    case PopCount(_, _) => PopTakeKeeps(s, i);
    case LookLoadHead(_) => LookLoadKeeps(s, i);
    case LookLoadNext(_, _, _) => LookLoadNextKeeps(s, i);
    case LookReadValue(_, _, _) => LookReadKeeps(s, i);
    case SizeLoad => LookReadKeeps(s, i);
    case Returning(_, _) => ReturnKeeps(s, i);
  }

  // ---- The record of calls ----------------------------------------------

  // The change by which the current call took effect, if it did.
  function Effect<T>(pc: PC<T>): Option<nat> {
    match pc
    case PushSwing(_, _, at) => Some(at)
    case PushCount(_, at) => Some(at)
    case PopCount(_, at) => Some(at)
    case Returning(answer, at) => if answer.Changes() then Some(at) else None
    case _ => None
  }

  ghost predicate Ticks<T>(past: History<T>) {
    && (forall k {:trigger past.moments[k]} :: 0 <= k < |past.moments| ==> past.moments[k] <= |past.changes|)
    && (forall k, l {:trigger past.moments[k], past.moments[l]} :: 0 <= k < l < |past.moments| ==>
         past.moments[k] <= past.moments[l])
  }

  ghost predicate OpOK<T>(past: History<T>, i: nat, r: nat)
    requires i < |past.done| && r < |past.done[i]|
  {
    var op := past.done[i][r];
    && op.tid == i && op.nth == r
    && op.inv <= op.at <= op.resp && op.called <= op.returned < |past.moments|
    && past.moments[op.called] == op.inv && past.moments[op.returned] == op.resp
    && if op.answer.Changes() then op.at < op.resp <= |past.changes| && past.changes[op.at] == Change(i, r, op.answer)
       else Seen(past, op.inv, op.at, op.answer)
  }

  ghost predicate ChangeOK<T>(s: State<T>, m: nat)
    requires m < s.Now()
  {
    var c := s.past.changes[m];
    && c.tid < |s.past.done| && c.tid < |s.threads| && c.answer.Changes() && c.nth <= |s.past.done[c.tid]|
    && if c.nth < |s.past.done[c.tid]| then s.past.done[c.tid][c.nth].at == m
         && s.past.done[c.tid][c.nth].answer == c.answer
       else Effect(s.threads[c.tid].pc) == Some(m)
  }

  ghost predicate LookOK<T>(past: History<T>, k: nat)
    requires k < |past.looks|
  {
    var op := past.looks[k];
    op.tid < |past.done| && op.nth < |past.done[op.tid]| && past.done[op.tid][op.nth] == op && !op.answer.Changes()
  }

  ghost predicate Listed<T>(past: History<T>, i: nat, r: nat)
    requires i < |past.done| && r < |past.done[i]|
  {
    !past.done[i][r].answer.Changes() ==> past.done[i][r] in past.looks
  }

  ghost predicate Timed<T>(s: State<T>, i: nat)
    requires i < |s.threads|
  {
    var th := s.threads[i];
    th.pc != Idle ==> th.called < |s.past.moments| && s.past.moments[th.called] == th.since
  }

  ghost predicate Recorded<T>(s: State<T>) {
    var past := s.past;
    && Ticks(past)
    && (forall i, r {:trigger OpOK(past, i, r)} :: 0 <= i < |past.done| && 0 <= r < |past.done[i]| ==> OpOK(past, i, r))
    && (forall m {:trigger ChangeOK(s, m)} :: 0 <= m < s.Now() ==> ChangeOK(s, m))
    && (forall k {:trigger LookOK(past, k)} :: 0 <= k < |past.looks| ==> LookOK(past, k))
    && (forall k, l {:trigger past.looks[k], past.looks[l]} :: 0 <= k < l < |past.looks| ==>
         past.looks[k].returned < past.looks[l].returned)
    && (forall i, r {:trigger Listed(past, i, r)} :: 0 <= i < |past.done| && 0 <= r < |past.done[i]| ==>
         Listed(past, i, r))
    && (forall i {:trigger Timed(s, i)} :: 0 <= i < |s.threads| ==> Timed(s, i))
  }

  // Thread i moves; what other threads have on record is as before.
  ghost predicate Elsewhere<T>(s: State<T>, s': State<T>, i: nat) {
    && i < |s.threads| == |s'.threads| == |s.past.done| == |s'.past.done|
    && (forall j {:trigger s'.threads[j]} :: 0 <= j < |s.threads| && j != i ==>
          && s'.threads[j].since == s.threads[j].since && s'.threads[j].called == s.threads[j].called
          && Effect(s'.threads[j].pc) == Effect(s.threads[j].pc)
               && (s'.threads[j].pc == Idle <==> s.threads[j].pc == Idle))
    && s'.past.moments == s.past.moments + [s.Now()]
    && s.past.changes <= s'.past.changes
    && Timed(s', i)
  }

  lemma TicksKept<T>(s: State<T>, s': State<T>, i: nat)
    requires Recorded(s) && Elsewhere(s, s', i)
    ensures Ticks(s'.past)
    ensures forall j {:trigger Timed(s', j)} :: 0 <= j < |s'.threads| ==> Timed(s', j)
  {
    forall j {:trigger Timed(s', j)} | 0 <= j < |s'.threads| ensures Timed(s', j) {
      assert Timed(s, j);
    }
  }

  lemma OpStays<T>(past: History<T>, past': History<T>, i: nat, r: nat)
    requires i < |past.done| == |past'.done| && r < |past.done[i]| && past.done[i] <= past'.done[i]
    requires OpOK(past, i, r) && past.changes <= past'.changes && past.moments <= past'.moments
    ensures OpOK(past', i, r)
  {
    var op := past.done[i][r];
    assert past'.done[i][r] == op;
    if !op.answer.Changes() { assert past'.changes[..op.at] == past.changes[..op.at]; }
  }

  // No call returns in this step.
  lemma RecordKept<T>(s: State<T>, s': State<T>, i: nat)
    requires Recorded(s) && Elsewhere(s, s', i)
    requires s'.past.done == s.past.done && s'.past.looks == s.past.looks
    requires
      || (s'.past.changes == s.past.changes && Effect(s'.threads[i].pc) == Effect(s.threads[i].pc))
      || (Effect(s.threads[i].pc) == None && Effect(s'.threads[i].pc) == Some(s.Now()) && s'.Now() == s.Now() + 1 &&
          s'.past.changes[s.Now()].answer.Changes() && s'.past.changes[s.Now()].tid == i
          && s'.past.changes[s.Now()].nth == |s.past.done[i]|)
    ensures Recorded(s')
  {
    TicksKept(s, s', i);
    var past, past' := s.past, s'.past;
    forall j, r {:trigger OpOK(past', j, r)} | 0 <= j < |past'.done| && 0 <= r < |past'.done[j]|
      ensures OpOK(past', j, r)
    {
      assert OpOK(past, j, r);
      OpStays(past, past', j, r);
    }
    forall m {:trigger ChangeOK(s', m)} | 0 <= m < s'.Now() ensures ChangeOK(s', m) {
      if m < s.Now() { assert ChangeOK(s, m); }
    }
    forall k {:trigger LookOK(past', k)} | 0 <= k < |past'.looks| ensures LookOK(past', k) { assert LookOK(past, k); }
    forall j, r {:trigger Listed(past', j, r)} | 0 <= j < |past'.done| && 0 <= r < |past'.done[j]|
      ensures Listed(past', j, r)
    {
      assert Listed(past, j, r);
    }
  }

  lemma ReturnRecorded<T>(s: State<T>, i: nat)
    requires Core(s) && Recorded(s) && s.Running(i) && s.threads[i].pc.Returning?
    ensures Recorded(Apply(s, Run(i)))
  {
    var s' := Apply(s, Run(i));
    var past, past' := s.past, s'.past;
    var answer, at, n := s.threads[i].pc.answer, s.threads[i].pc.at, |past.done[i]|;
    assert LocalOK(s, i, s.threads[i]) && Timed(s, i);
    TicksKept(s, s', i);
    var op := past'.done[i][n];
    assert OpOK(past', i, n) by {
      if !answer.Changes() { assert past'.changes[..at] == past.changes[..at]; }
    }
    forall j, r {:trigger OpOK(past', j, r)} | 0 <= j < |past'.done| && 0 <= r < |past'.done[j]|
      ensures OpOK(past', j, r)
    {
      if !(j == i && r == n) {
        assert OpOK(past, j, r);
        OpStays(past, past', j, r);
      }
    }
    forall m {:trigger ChangeOK(s', m)} | 0 <= m < s'.Now() ensures ChangeOK(s', m) { assert ChangeOK(s, m); }
    ReturnListed(s, i);
  }

  lemma ReturnListed<T>(s: State<T>, i: nat)
    requires Recorded(s) && s.Running(i) && s.threads[i].pc.Returning?
    ensures var past' := Apply(s, Run(i)).past;
      && (forall k {:trigger LookOK(past', k)} :: 0 <= k < |past'.looks| ==> LookOK(past', k))
      && (forall k, l {:trigger past'.looks[k], past'.looks[l]} :: 0 <= k < l < |past'.looks| ==>
           past'.looks[k].returned < past'.looks[l].returned)
      && (forall j, r {:trigger Listed(past', j, r)} :: 0 <= j < |past'.done| && 0 <= r < |past'.done[j]| ==>
           Listed(past', j, r))
  {
    var past, past' := s.past, Apply(s, Run(i)).past;
    forall k {:trigger LookOK(past', k)} | 0 <= k < |past'.looks| ensures LookOK(past', k) {
      if k < |past.looks| { assert LookOK(past, k); }
    }
    forall k, l {:trigger past'.looks[k], past'.looks[l]} | 0 <= k < l < |past'.looks|
      ensures past'.looks[k].returned < past'.looks[l].returned
    {
      assert LookOK(past, k);
      assert OpOK(past, past.looks[k].tid, past.looks[k].nth);
    }
    forall j, r {:trigger Listed(past', j, r)} | 0 <= j < |past'.done| && 0 <= r < |past'.done[j]|
      ensures Listed(past', j, r)
    {
      if !(j == i && r == |past.done[i]|) { assert Listed(past, j, r); }
      else if !past'.done[j][r].answer.Changes() { assert past'.looks[|past.looks|] == past'.done[j][r]; }
    }
  }

  lemma ActionRecorded<T>(s: State<T>, a: Action<T>)
    requires Core(s) && Recorded(s)
    ensures Recorded(Apply(s, a))
  {
    if s.Running(a.tid) {
      var i := a.tid;
      match a {
        case Call(_, call) => CallRecorded(s, i, call);
        case Run(_) => RunRecorded(s, i);
      }
    }
  }

  lemma CallRecorded<T>(s: State<T>, i: nat, call: Call<T>)
    requires Core(s) && Recorded(s) && s.Running(i)
    ensures Recorded(Apply(s, Call(i, call)))
  {
    assert LocalOK(s, i, s.threads[i]) && Timed(s, i);
    RecordKept(s, Apply(s, Call(i, call)), i);
  }

  lemma RunRecorded<T>(s: State<T>, i: nat)
    requires Core(s) && Recorded(s) && s.Running(i)
    ensures Recorded(Apply(s, Run(i)))
  {
    StepKeeps(s, i);
    if s.threads[i].pc.Returning? {
      ReturnRecorded(s, i);
    } else {
      StepRecorded(s, i);
    }
  }

  lemma PushRecorded<T>(s: State<T>, i: nat)
    requires Recorded(s) && s.Running(i) && Dereferences(s.threads[i].pc, |s.nodes|) && |s.threads| == |s.past.done|
    requires var pc := s.threads[i].pc; pc.PushLoadTail? || pc.PushLoadNext? || pc.PushCheckTail?
    ensures Recorded(Apply(s, Run(i)))
  {
    assert Timed(s, i);
    RecordKept(s, Apply(s, Run(i)), i);
  }

  lemma PushedRecorded<T>(s: State<T>, i: nat)
    requires Recorded(s) && s.Running(i) && Dereferences(s.threads[i].pc, |s.nodes|) && |s.threads| == |s.past.done|
    requires var pc := s.threads[i].pc; pc.PushSwing? || pc.PushHelp? || pc.PushCount?
    ensures Recorded(Apply(s, Run(i)))
  {
    assert Timed(s, i);
    RecordKept(s, Apply(s, Run(i)), i);
  }

  lemma PopRecorded<T>(s: State<T>, i: nat)
    requires Recorded(s) && s.Running(i) && Dereferences(s.threads[i].pc, |s.nodes|) && |s.threads| == |s.past.done|
    requires var pc := s.threads[i].pc; pc.PopLoadHead? || pc.PopLoadTail? || pc.PopLoadNext? || pc.PopCheckHead?
    ensures Recorded(Apply(s, Run(i)))
  {
    assert Timed(s, i);
    RecordKept(s, Apply(s, Run(i)), i);
  }

  lemma PoppedRecorded<T>(s: State<T>, i: nat)
    requires Recorded(s) && s.Running(i) && Dereferences(s.threads[i].pc, |s.nodes|) && |s.threads| == |s.past.done|
    requires var pc := s.threads[i].pc; pc.PopHelp? || pc.PopReadValue? || pc.PopSwing? || pc.PopCount?
    ensures Recorded(Apply(s, Run(i)))
  {
    assert Timed(s, i);
    RecordKept(s, Apply(s, Run(i)), i);
  }

  lemma LookRecorded<T>(s: State<T>, i: nat)
    requires Recorded(s) && s.Running(i) && Dereferences(s.threads[i].pc, |s.nodes|) && |s.threads| == |s.past.done|
    requires var pc := s.threads[i].pc;
      pc.Idle? || pc.LookLoadHead? || pc.LookLoadNext? || pc.LookReadValue? || pc.SizeLoad?
    ensures Recorded(Apply(s, Run(i)))
  {
    assert Timed(s, i);
    RecordKept(s, Apply(s, Run(i)), i);
  }

  lemma LinkRecorded<T>(s: State<T>, i: nat)
    requires Recorded(s) && s.Running(i) && Dereferences(s.threads[i].pc, |s.nodes|) && |s.threads| == |s.past.done|
    requires s.threads[i].pc.PushLink?
    ensures Recorded(Apply(s, Run(i)))
  {
    assert Timed(s, i);
    RecordKept(s, Apply(s, Run(i)), i);
  }

  lemma StepRecorded<T>(s: State<T>, i: nat)
    requires Recorded(s) && s.Running(i) && !s.threads[i].pc.Returning? && |s.threads| == |s.past.done|
    requires Dereferences(s.threads[i].pc, |s.nodes|)
    ensures Recorded(Apply(s, Run(i)))
  {
    var pc := s.threads[i].pc;
    if pc.PushLink? {
      LinkRecorded(s, i);
    } else if pc.PushLoadTail? || pc.PushLoadNext? || pc.PushCheckTail? {
      PushRecorded(s, i);
    } else if pc.PushSwing? || pc.PushHelp? || pc.PushCount? {
      PushedRecorded(s, i);
    } else if pc.PopLoadHead? || pc.PopLoadTail? || pc.PopLoadNext? || pc.PopCheckHead? {
      PopRecorded(s, i);
    } else if pc.PopHelp? || pc.PopReadValue? || pc.PopSwing? || pc.PopCount? {
      PoppedRecorded(s, i);
    } else {
      LookRecorded(s, i);
    }
  }

  // ---- The counter ------------------------------------------------------

  // A push that has linked its node counts it later; a pop that has unlinked one, too.
  function Due<T>(pc: PC<T>): int {
    if pc.PushSwing? || pc.PushCount? then 1 else if pc.PopCount? then -1 else 0
  }

  // What each thread has linked or unlinked and not counted yet.
  function Dues<T>(threads: seq<Thread<T>>): (dues: seq<int>)
    ensures |dues| == |threads|
  {
    seq(|threads|, k requires 0 <= k < |threads| => Due(threads[k].pc))
  }

  /** The counter is the length of the queue, up to the pushes and pops that have not counted yet. */
  ghost predicate Counted<T>(s: State<T>) {
    s.count + Total(Dues(s.threads)) == |s.past.chain| - 1 - s.past.h
  }

  ghost predicate Even<T>(s: State<T>, s': State<T>, i: nat) {
    && i < |s.threads| == |s'.threads|
    && (forall j {:trigger s'.threads[j]} :: 0 <= j < |s.threads| && j != i ==>
         Due(s'.threads[j].pc) == Due(s.threads[j].pc))
    && s'.count - s.count + Due(s'.threads[i].pc) - Due(s.threads[i].pc)
       == |s'.past.chain| - s'.past.h - (|s.past.chain| - s.past.h)
  }

  lemma PushEven<T>(s: State<T>, i: nat)
    requires s.Running(i) && |s.threads| == |s.past.done| && Dereferences(s.threads[i].pc, |s.nodes|)
      && var pc := s.threads[i].pc; pc.PushLoadTail? || pc.PushLoadNext? || pc.PushCheckTail? || pc.PushLink?
    ensures Even(s, Apply(s, Run(i)), i)
  {
  }

  lemma PushedEven<T>(s: State<T>, i: nat)
    requires s.Running(i) && |s.threads| == |s.past.done| && Dereferences(s.threads[i].pc, |s.nodes|)
      && var pc := s.threads[i].pc;
      pc.PushSwing? || (pc.PushCount? && pc.node < |s.nodes|) || pc.PushHelp?
    ensures Even(s, Apply(s, Run(i)), i)
  {
  }

  lemma PopEven<T>(s: State<T>, i: nat)
    requires s.Running(i) && |s.threads| == |s.past.done| && Dereferences(s.threads[i].pc, |s.nodes|)
      && var pc := s.threads[i].pc;
           pc.PopLoadHead? || pc.PopLoadTail? || pc.PopLoadNext? || pc.PopCheckHead? || pc.PopHelp?
    ensures Even(s, Apply(s, Run(i)), i)
  {
  }

  lemma PoppedEven<T>(s: State<T>, i: nat)
    requires s.Running(i) && |s.threads| == |s.past.done| && Dereferences(s.threads[i].pc, |s.nodes|)
      && var pc := s.threads[i].pc; pc.PopReadValue? || pc.PopSwing? || pc.PopCount?
    ensures Even(s, Apply(s, Run(i)), i)
  {
  }

  lemma LookEven<T>(s: State<T>, i: nat)
    requires s.Running(i) && |s.threads| == |s.past.done| && Dereferences(s.threads[i].pc, |s.nodes|)
      && var pc := s.threads[i].pc;
           pc.Idle? || pc.LookLoadHead? || pc.LookLoadNext? || pc.LookReadValue? || pc.SizeLoad? || pc.Returning?
    ensures Even(s, Apply(s, Run(i)), i)
  {
  }

  lemma StepEven<T>(s: State<T>, i: nat)
    requires Core(s) && s.Running(i)
    ensures Even(s, Apply(s, Run(i)), i)
  {
    StepKeeps(s, i);
    assert LocalOK(s, i, s.threads[i]);
    var pc := s.threads[i].pc;
    if pc.PushLoadTail? || pc.PushLoadNext? || pc.PushCheckTail? || pc.PushLink? {
      PushEven(s, i);
    } else if pc.PushSwing? || pc.PushCount? || pc.PushHelp? {
      PushedEven(s, i);
    } else if pc.PopLoadHead? || pc.PopLoadTail? || pc.PopLoadNext? || pc.PopCheckHead? || pc.PopHelp? {
      PopEven(s, i);
    } else if pc.PopReadValue? || pc.PopSwing? || pc.PopCount? {
      PoppedEven(s, i);
    } else {
      LookEven(s, i);
    }
  }

  lemma InvokeEven<T>(s: State<T>, i: nat, call: Call<T>)
    requires s.Running(i) && |s.threads| == |s.past.done|
    ensures Even(s, Apply(s, Call(i, call)), i)
  {
  }

  lemma ActionCounted<T>(s: State<T>, a: Action<T>)
    requires Core(s) && Counted(s)
    ensures Counted(Apply(s, a))
  {
    if s.Running(a.tid) {
      if a.Run? { StepEven(s, a.tid); } else { InvokeEven(s, a.tid, a.call); }
      TotalUpdate(Dues(s.threads), Dues(Apply(s, a).threads), a.tid);
    }
  }

  // ---- Linearizability --------------------------------------------------

  // The calls that changed nothing and took effect at moment k, as they returned.
  function LooksAt<T>(looks: seq<Op<T>>, k: nat): (r: seq<Op<T>>)
    ensures forall op {:trigger op in r} :: op in r ==> op in looks && op.at == k
    ensures forall op {:trigger op in r} :: op in looks && op.at == k ==> op in r
  {
    if looks == [] then []
    else LooksAt(looks[..|looks| - 1], k) + (if looks[|looks| - 1].at == k then [looks[|looks| - 1]] else [])
  }

  // The call that made change m; one that has not returned yet counts as returning now.
  function Maker<T>(s: State<T>, m: nat): Op<T>
    requires m < s.Now()
  {
    var c := s.past.changes[m];
    if c.tid < |s.past.done| && c.nth < |s.past.done[c.tid]| then s.past.done[c.tid][c.nth]
    else if c.tid < |s.threads| then
      Op(c.tid, c.nth, c.answer, s.threads[c.tid].since, m, s.Now(), s.threads[c.tid].called, |s.past.moments|)
    else Op(c.tid, c.nth, c.answer, 0, m, s.Now(), 0, |s.past.moments|)
  }

  // All calls that took effect up to moment k, one after another.
  function Sequential<T>(s: State<T>, k: nat): seq<Op<T>>
    requires k <= s.Now()
  {
    if k == 0 then LooksAt(s.past.looks, 0)
    else Sequential(s, k - 1) + [Maker(s, k - 1)] + LooksAt(s.past.looks, k)
  }

  function AnswersOf<T>(ops: seq<Op<T>>): (a: seq<Answer<T>>)
    ensures |a| == |ops|
  {
    seq(|ops|, k requires 0 <= k < |ops| => ops[k].answer)
  }

  lemma {:induction false} FifoLooks<T>(past: History<T>, before: seq<Answer<T>>, looks: seq<Op<T>>, k: nat)
    requires k <= |past.changes| && QueueAt(past, k).Some? && Fifo(before) == QueueAt(past, k)
    requires forall op {:trigger op in looks} :: op in looks && op.at == k ==>
      !op.answer.Changes() && Seen(past, 0, k, op.answer)
    ensures Fifo(before + AnswersOf(LooksAt(looks, k))) == QueueAt(past, k)
  {
    if looks == [] {
      assert before + AnswersOf(LooksAt(looks, k)) == before;
    } else {
      var rest, last := looks[..|looks| - 1], looks[|looks| - 1];
      assert forall op {:trigger op in rest} :: op in rest ==> op in looks;
      FifoLooks(past, before, rest, k);
      if last.at == k {
        assert last in looks;
        var all := before + AnswersOf(LooksAt(looks, k));
        assert all[..|all| - 1] == before + AnswersOf(LooksAt(rest, k));
        assert all[|all| - 1] == last.answer;
      } else {
        assert LooksAt(looks, k) == LooksAt(rest, k);
      }
    }
  }

  lemma {:induction false} FifoPrefix<T>(answers: seq<Answer<T>>, k: nat)
    requires Fifo(answers).Some? && k <= |answers|
    ensures Fifo(answers[..k]).Some?
  {
    if k < |answers| {
      FifoPrefix(answers[..|answers| - 1], k);
      assert answers[..|answers| - 1][..k] == answers[..k];
    } else {
      assert answers[..k] == answers;
    }
  }

  lemma QueueExists<T>(s: State<T>, k: nat)
    requires QueueAt(s.past, s.Now()).Some? && k <= s.Now()
    ensures QueueAt(s.past, k).Some?
  {
    assert s.past.changes[..s.Now()] == s.past.changes;
    FifoPrefix(Answers(s.past.changes), k);
    assert Answers(s.past.changes)[..k] == Answers(s.past.changes[..k]);
  }

  lemma LooksSeen<T>(s: State<T>, k: nat)
    requires Recorded(s) && k <= s.Now()
    ensures forall op {:trigger op in s.past.looks} :: op in s.past.looks && op.at == k ==>
      !op.answer.Changes() && Seen(s.past, 0, k, op.answer)
  {
    forall op {:trigger op in s.past.looks} | op in s.past.looks && op.at == k
      ensures !op.answer.Changes() && Seen(s.past, 0, k, op.answer)
    {
      var l :| 0 <= l < |s.past.looks| && s.past.looks[l] == op;
      assert LookOK(s.past, l) && OpOK(s.past, op.tid, op.nth);
    }
  }

  lemma QueueStep<T>(s: State<T>, k: nat)
    requires k < s.Now() && QueueAt(s.past, k).Some?
    ensures QueueAt(s.past, k + 1) == After(QueueAt(s.past, k).value, s.past.changes[k].answer)
  {
    var past := s.past.(changes := s.past.changes[..k]);
    var past' := s.past.(changes := s.past.changes[..k + 1]);
    assert past'.changes == past.changes + [s.past.changes[k]];
    assert past.changes[..k] == past.changes && past'.changes[..k + 1] == past'.changes;
    ChangeApplied(past, past', s.past.changes[k]);
  }

  lemma FifoWithLooks<T>(s: State<T>, before: seq<Answer<T>>, k: nat)
    requires QueueAt(s.past, s.Now()).Some? && Recorded(s) && k <= s.Now() && Fifo(before) == QueueAt(s.past, k)
    ensures Fifo(before + AnswersOf(LooksAt(s.past.looks, k))) == QueueAt(s.past, k)
  {
    QueueExists(s, k);
    LooksSeen(s, k);
    FifoLooks(s.past, before, s.past.looks, k);
  }

  // The order is legal: it leaves the queue as the changes do.
  lemma {:induction false} SequentialFifo<T>(s: State<T>, k: nat)
    requires QueueAt(s.past, s.Now()).Some? && Recorded(s) && k <= s.Now()
    ensures Fifo(AnswersOf(Sequential(s, k))) == QueueAt(s.past, k)
  {
    if k == 0 {
      FifoWithLooks(s, [], 0);
      assert [] + AnswersOf(LooksAt(s.past.looks, 0)) == AnswersOf(Sequential(s, 0));
    } else {
      SequentialFifo(s, k - 1);
      MakerFifo(s, k - 1);
      FifoWithLooks(s, AnswersOf(Sequential(s, k - 1)) + [Maker(s, k - 1).answer], k);
      SequentialAnswers(s, k);
    }
  }

  lemma SequentialAnswers<T>(s: State<T>, k: nat)
    requires Recorded(s) && 0 < k <= s.Now()
    ensures AnswersOf(Sequential(s, k)) == AnswersOf(Sequential(s, k - 1)) + [Maker(s, k - 1).answer]
      + AnswersOf(LooksAt(s.past.looks, k))
  {
  }

  lemma MakerFifo<T>(s: State<T>, k: nat)
    requires QueueAt(s.past, s.Now()).Some? && Recorded(s) && k < s.Now()
    requires Fifo(AnswersOf(Sequential(s, k))) == QueueAt(s.past, k)
    ensures Fifo(AnswersOf(Sequential(s, k)) + [Maker(s, k).answer]) == QueueAt(s.past, k + 1)
  {
    var before := AnswersOf(Sequential(s, k)) + [Maker(s, k).answer];
    QueueExists(s, k);
    assert ChangeOK(s, k);
    assert before[..|before| - 1] == AnswersOf(Sequential(s, k));
    QueueStep(s, k);
  }

  // x may stand before y: they are different calls, and y had not returned when x was made.
  ghost predicate MayPrecede<T>(x: Op<T>, y: Op<T>) {
    (x.tid != y.tid || x.nth != y.nth) && x.called <= y.returned
  }

  // The current call of a thread that has taken effect: by a recorded change, whose answer is the
  // answer of the call.  It began when the thread says, and counts as returning now.
  ghost predicate UnderWay<T>(s: State<T>, op: Op<T>)
    requires op.tid < |s.threads|
  {
    var th := s.threads[op.tid];
    && Effect(th.pc) == Some(op.at) && op.at < s.Now() && s.past.changes[op.at] == Change(op.tid, op.nth, op.answer)
    && op.answer.Changes() && op.inv == th.since && op.called == th.called
    && op.resp == s.Now() && op.returned == |s.past.moments|
  }

  // A call that has returned, or the current call of a thread that has taken effect.
  ghost predicate Genuine<T>(s: State<T>, op: Op<T>) {
    && op.tid < |s.past.done| && op.tid < |s.threads|
    && if op.nth < |s.past.done[op.tid]| then op == s.past.done[op.tid][op.nth]
       else op.nth == |s.past.done[op.tid]| && UnderWay(s, op)
  }

  ghost predicate Timely<T>(past: History<T>, op: Op<T>) {
    && op.called < |past.moments| && past.moments[op.called] == op.inv <= op.at
    && op.called <= op.returned <= |past.moments|
    && (op.returned < |past.moments| ==>
          past.moments[op.returned] == op.resp && op.at <= op.resp && (op.answer.Changes() ==> op.at < op.resp))
  }

  lemma MakerOK<T>(s: State<T>, m: nat)
    requires Core(s) && Recorded(s) && m < s.Now()
    ensures Genuine(s, Maker(s, m)) && Timely(s.past, Maker(s, m)) && Maker(s, m).at == m
    ensures Maker(s, m).answer == s.past.changes[m].answer && Maker(s, m).answer.Changes()
    ensures Maker(s, m).tid == s.past.changes[m].tid && Maker(s, m).nth == s.past.changes[m].nth
  {
    var c := s.past.changes[m];
    assert ChangeOK(s, m);
    if c.nth < |s.past.done[c.tid]| {
      assert OpOK(s.past, c.tid, c.nth);
    } else {
      assert Timed(s, c.tid) && LocalOK(s, c.tid, s.threads[c.tid]);
    }
  }

  lemma LookerOK<T>(s: State<T>, op: Op<T>)
    requires Recorded(s) && op in s.past.looks && |s.threads| == |s.past.done|
    ensures Genuine(s, op) && Timely(s.past, op) && !op.answer.Changes() && op.at <= s.Now()
    ensures op.returned < |s.past.moments| && op.nth < |s.past.done[op.tid]|
  {
    var l :| 0 <= l < |s.past.looks| && s.past.looks[l] == op;
    assert LookOK(s.past, l) && OpOK(s.past, op.tid, op.nth);
  }

  // What took effect earlier may stand earlier.
  lemma EarlierMayPrecede<T>(s: State<T>, x: Op<T>, y: Op<T>)
    requires Recorded(s) && Genuine(s, x) && Genuine(s, y) && Timely(s.past, x) && Timely(s.past, y)
    requires x.at < y.at || (x.at == y.at && !x.answer.Changes() && y.answer.Changes())
    ensures MayPrecede(x, y)
  {
  }

  ghost predicate Ordered<T>(ops: seq<Op<T>>) {
    forall p, q {:trigger ops[p], ops[q]} :: 0 <= p < q < |ops| ==> MayPrecede(ops[p], ops[q])
  }

  lemma {:induction false} LooksOrdered<T>(s: State<T>, looks: seq<Op<T>>, k: nat)
    requires Recorded(s) && |s.threads| == |s.past.done|
    requires forall op {:trigger op in looks} :: op in looks ==> op in s.past.looks
    requires forall a, b {:trigger looks[a], looks[b]} :: 0 <= a < b < |looks| ==> looks[a].returned < looks[b].returned
    ensures Ordered(LooksAt(looks, k))
  {
    if looks != [] {
      var n := |looks| - 1;
      assert forall op {:trigger op in looks[..n]} :: op in looks[..n] ==> op in looks;
      LooksOrdered(s, looks[..n], k);
      var before := LooksAt(looks[..n], k);
      forall p | 0 <= p < |before| ensures MayPrecede(before[p], looks[n]) {
        assert before[p] in before;
        var a :| 0 <= a < n && looks[a] == before[p];
        assert looks[n] in looks && looks[a] in looks;
        LookerOK(s, looks[a]);
        LookerOK(s, looks[n]);
      }
    }
  }

  lemma OrderedJoin<T>(a: seq<Op<T>>, b: seq<Op<T>>)
    requires Ordered(a) && Ordered(b)
    requires forall p, q {:trigger a[p], b[q]} :: 0 <= p < |a| && 0 <= q < |b| ==> MayPrecede(a[p], b[q])
    ensures Ordered(a + b)
  {
  }

  // What stands in the order up to moment k took effect by then.
  ghost predicate Entry<T>(s: State<T>, op: Op<T>, k: nat) {
    Genuine(s, op) && Timely(s.past, op) && op.at <= k && (op.answer.Changes() ==> op.at < k)
  }

  lemma LooksFollow<T>(s: State<T>, sofar: seq<Op<T>>, looks: seq<Op<T>>, k: nat)
    requires Recorded(s) && Ordered(sofar) && Ordered(looks)
    requires forall p {:trigger sofar[p]} :: 0 <= p < |sofar| ==> Entry(s, sofar[p], k) && sofar[p].at < k
    requires forall q {:trigger looks[q]} :: 0 <= q < |looks| ==> Entry(s, looks[q], k) && looks[q].at == k
    ensures Ordered(sofar + looks)
  {
    forall p, q {:trigger sofar[p], looks[q]} | 0 <= p < |sofar| && 0 <= q < |looks|
      ensures MayPrecede(sofar[p], looks[q])
    {
      EarlierMayPrecede(s, sofar[p], looks[q]);
    }
    OrderedJoin(sofar, looks);
  }

  lemma {:induction false} SequentialOrdered<T>(s: State<T>, k: nat)
    requires Core(s) && Recorded(s) && k <= s.Now()
    ensures Ordered(Sequential(s, k))
    ensures forall p {:trigger Sequential(s, k)[p]} :: 0 <= p < |Sequential(s, k)| ==> Entry(s, Sequential(s, k)[p], k)
  {
    var looks := LooksAt(s.past.looks, k);
    LooksOrdered(s, s.past.looks, k);
    forall q {:trigger looks[q]} | 0 <= q < |looks|
      ensures Entry(s, looks[q], k) && looks[q].at == k && !looks[q].answer.Changes()
    {
      assert looks[q] in looks;
      LookerOK(s, looks[q]);
    }
    if k > 0 {
      SequentialOrdered(s, k - 1);
      var before, made := Sequential(s, k - 1), Maker(s, k - 1);
      MakerOK(s, k - 1);
      forall p {:trigger before[p]} | 0 <= p < |before| ensures MayPrecede(before[p], made) {
        EarlierMayPrecede(s, before[p], made);
      }
      OrderedJoin(before, [made]);
      var sofar := before + [made];
      forall p {:trigger sofar[p]} | 0 <= p < |sofar| ensures Entry(s, sofar[p], k) && sofar[p].at < k {
        assert p < |before| ==> sofar[p] == before[p];
      }
      LooksFollow(s, sofar, looks, k);
    }
  }

  lemma {:induction false} InSequential<T>(s: State<T>, op: Op<T>, k: nat)
    requires k <= s.Now()
    requires (op in s.past.looks && op.at <= k) || (op.at < k && Maker(s, op.at) == op)
    ensures op in Sequential(s, k)
  {
    if k > 0 && !(op in s.past.looks && op.at == k) && op.at != k - 1 {
      InSequential(s, op, k - 1);
    } else if k > 0 && op in s.past.looks && op.at == k - 1 {
      InSequential(s, op, k - 1);
    }
  }

  /** `order` explains the run: a FIFO queue serving these calls one after another gives these
      answers and ends with the values in the list; each returned call, and the maker of each link
      and unlink, stands in it once; nothing else does, so each call under way that took effect
      stands in it with the answer, the start and the end on record; and no call stands after one
      made later than its return. */
  ghost predicate Explains<T>(s: State<T>, order: seq<Op<T>>) {
    && Shape(s) && Fifo(AnswersOf(order)) == Some(Contents(s))
    && (forall i, r {:trigger s.past.done[i][r]} :: 0 <= i < |s.past.done| && 0 <= r < |s.past.done[i]| ==>
         s.past.done[i][r] in order)
    && (forall m {:trigger Maker(s, m)} :: 0 <= m < s.Now() ==> Maker(s, m) in order)
    && (forall p {:trigger order[p]} :: 0 <= p < |order| ==> Genuine(s, order[p]))
    && Ordered(order)
  }

  lemma RecordExplains<T>(s: State<T>)
    requires Core(s) && Recorded(s)
    ensures Explains(s, Sequential(s, s.Now()))
  {
    var order := Sequential(s, s.Now());
    SequentialFifo(s, s.Now());
    SequentialOrdered(s, s.Now());
    forall i, r {:trigger s.past.done[i][r]} | 0 <= i < |s.past.done| && 0 <= r < |s.past.done[i]|
      ensures s.past.done[i][r] in order
    {
      assert OpOK(s.past, i, r) && Listed(s.past, i, r);
      InSequential(s, s.past.done[i][r], s.Now());
    }
    forall m {:trigger Maker(s, m)} | 0 <= m < s.Now() ensures Maker(s, m) in order {
      MakerOK(s, m);
      InSequential(s, Maker(s, m), s.Now());
    }
    forall p {:trigger order[p]} | 0 <= p < |order| ensures Genuine(s, order[p]) { assert Entry(s, order[p], s.Now()); }
  }

  lemma InitOK<T>(n: nat, zero: T)
    ensures var s := Init(n, zero); Core(s) && Recorded(s) && Counted(s)
  {
    var s := Init(n, zero);
    forall k {:trigger LinkAt(s, k)} | 0 <= k < |s.past.chain| ensures LinkAt(s, k) {}
    assert Contents(s) == [];
    TotalZero(Dues(s.threads));
  }

  // ---- What the schedule asks for ---------------------------------------

  // The clock counts the actions of threads there are.
  function Clock<T>(n: nat, schedule: seq<Action<T>>): (steps: nat)
    ensures steps <= |schedule|
  {
    if schedule == [] then 0
    else Clock(n, schedule[..|schedule| - 1]) + if schedule[|schedule| - 1].tid < n then 1 else 0
  }

  // A call that the schedule makes and an answer that comes back, each with its step.
  datatype Made<T> = Made(call: Call<T>, step: nat)
  datatype Back<T> = Back(answer: Answer<T>, step: nat)

  predicate Idles<T>(s: State<T>, i: nat) { i < |s.threads| && s.threads[i].pc == Idle }

  predicate Busy<T>(s: State<T>, i: nat) { i < |s.threads| && s.threads[i].pc != Idle }

  // The calls made of thread i while it was idle, one after another.
  function Accepted<T>(n: nat, zero: T, schedule: seq<Action<T>>, i: nat): (made: seq<Made<T>>) {
    if schedule == [] then []
    else
      var before, last := schedule[..|schedule| - 1], schedule[|schedule| - 1];
      Accepted(n, zero, before, i)
      + if last.Call? && last.tid == i && Idles(Exec(n, zero, before), i) then [Made(last.call, Clock(n, before))]
        else []
  }

  predicate Returns<T>(s: State<T>, s': State<T>, i: nat) {
    Busy(s, i) && s.threads[i].pc.Returning? && Idles(s', i)
  }

  // The answers that thread i got, as it became idle again, and by which steps.
  function Returned<T>(n: nat, zero: T, schedule: seq<Action<T>>, i: nat): (backs: seq<Back<T>>) {
    if schedule == [] then []
    else
      var before := schedule[..|schedule| - 1];
      var s := Exec(n, zero, before);
      Returned(n, zero, before, i)
      + if Returns(s, Exec(n, zero, schedule), i) then [Back(s.threads[i].pc.answer, Clock(n, before))] else []
  }

  // The answers that a call may get.
  ghost predicate Serves<T>(call: Call<T>, answer: Answer<T>) {
    match call
    case Push(item) => answer == Pushed(item)
    case Pop => answer.Popped? || answer == PopFoundEmpty
    case Peek => answer.Peeked? || answer == PeekFoundEmpty
    case IsEmpty => answer.IsEmptySaid?
    case Size => answer.SizeSaid?
  }

  // Where a thread may stand that serves a call.
  ghost predicate Doing<T>(call: Call<T>, pc: PC<T>, nodes: seq<Node<T>>) {
    if pc.Returning? then Serves(call, pc.answer)
    else
      match call
      case Push(item) => PushNode(pc).Some? && PushNode(pc).value < |nodes| && nodes[PushNode(pc).value].value == item
      case Pop =>
        || pc.PopLoadHead? || pc.PopLoadTail? || pc.PopLoadNext? || pc.PopCheckHead? || pc.PopHelp?
        || pc.PopReadValue? || pc.PopSwing? || pc.PopCount?
      case Peek => Looking(pc) == Some(true)
      case IsEmpty => Looking(pc) == Some(false)
      case Size => pc.SizeLoad?
  }

  function PushNode<T>(pc: PC<T>): (node: Option<nat>) {
    match pc
    case PushSwing(node, _, _) => Some(node)
    case PushCount(node, _) => Some(node)
    case _ => Private(pc)
  }

  function Looking<T>(pc: PC<T>): (peek: Option<bool>) {
    match pc
    case LookLoadHead(peek) => Some(peek)
    case LookLoadNext(peek, _, _) => Some(peek)
    case LookReadValue(peek, _, _) => Some(peek)
    case _ => None
  }

  ghost predicate AnsweredAt<T>(made: Made<T>, back: Back<T>, op: Op<T>) {
    Serves(made.call, op.answer) && op.answer == back.answer && op.called == made.step && op.returned == back.step
  }

  // The record of thread i is what was asked of it, and what it is doing is the last call.
  ghost predicate Tallied<T>(s: State<T>, i: nat, made: seq<Made<T>>, backs: seq<Back<T>>)
    requires s.Running(i)
  {
    var th, done := s.threads[i], s.past.done[i];
    && |backs| == |done| && |made| == |done| + (if th.pc == Idle then 0 else 1)
    && (forall r {:trigger done[r]} :: 0 <= r < |done| ==> AnsweredAt(made[r], backs[r], done[r]))
    && (th.pc != Idle ==> th.called == made[|done|].step && Doing(made[|done|].call, th.pc, s.nodes))
  }

  // Values are never changed.
  ghost predicate ValuesStay<T>(s: State<T>, s': State<T>) {
    |s.nodes| <= |s'.nodes| && forall k {:trigger s'.nodes[k]} :: 0 <= k < |s.nodes| ==>
      s'.nodes[k].value == s.nodes[k].value
  }

  lemma ActionValues<T>(s: State<T>, a: Action<T>)
    ensures ValuesStay(s, Apply(s, a))
  {
  }

  // Another thread moves.
  lemma OthersStay<T>(s: State<T>, a: Action<T>, i: nat)
    requires s.Running(i) && a.tid != i
    ensures var s' := Apply(s, a);
      && s'.Running(i) && s'.past.done[i] == s.past.done[i] && s'.threads[i].called == s.threads[i].called
      && (s'.threads[i].pc == s.threads[i].pc || (s.threads[i].pc.LookLoadNext? && s'.threads[i].pc.LookLoadNext? &&
            s'.threads[i].pc.peek == s.threads[i].pc.peek))
  {
  }

  lemma OthersTallied<T>(s: State<T>, a: Action<T>, i: nat, made: seq<Made<T>>, backs: seq<Back<T>>)
    requires s.Running(i) && a.tid != i && Tallied(s, i, made, backs)
    ensures Apply(s, a).Running(i) && Tallied(Apply(s, a), i, made, backs)
  {
    ActionValues(s, a);
    OthersStay(s, a, i);
  }

  lemma CallTallied<T>(s: State<T>, i: nat, call: Call<T>, made: seq<Made<T>>, backs: seq<Back<T>>)
    requires s.Running(i) && Tallied(s, i, made, backs)
    ensures var s' := Apply(s, Action.Call(i, call));
      && s'.Running(i) && (Busy(s', i) || Idles(s, i))
      && Tallied(s', i, if Idles(s, i) then made + [Made(call, |s.past.moments|)] else made, backs)
      && !Idles(s', i)
  {
  }

  // The call under way goes on, or returns its answer.
  lemma PushDoing<T>(s: State<T>, i: nat, item: T)
    requires Core(s) && s.Running(i) && s.threads[i].pc != Idle && !s.threads[i].pc.Returning?
    requires Doing(Push(item), s.threads[i].pc, s.nodes)
    ensures var s' := Apply(s, Run(i));
      s'.Running(i) && s'.threads[i].pc != Idle && Doing(Push(item), s'.threads[i].pc, s'.nodes)
  {
    ActionValues(s, Run(i));
  }

  lemma PopDoing<T>(s: State<T>, i: nat)
    requires Core(s) && s.Running(i) && s.threads[i].pc != Idle && !s.threads[i].pc.Returning?
    requires Doing(Pop, s.threads[i].pc, s.nodes)
    ensures var s' := Apply(s, Run(i));
      s'.Running(i) && s'.threads[i].pc != Idle && Doing(Pop, s'.threads[i].pc, s'.nodes)
  {
  }

  lemma LookDoing<T>(s: State<T>, i: nat, call: Call<T>)
    requires Core(s) && s.Running(i) && s.threads[i].pc != Idle && !s.threads[i].pc.Returning?
    requires call.Peek? || call.IsEmpty? || call.Size?
    requires Doing(call, s.threads[i].pc, s.nodes)
    ensures var s' := Apply(s, Run(i));
      s'.Running(i) && s'.threads[i].pc != Idle && Doing(call, s'.threads[i].pc, s'.nodes)
  {
  }

  lemma StepStays<T>(s: State<T>, i: nat)
    requires s.Running(i) && !s.threads[i].pc.Returning?
    ensures var s' := Apply(s, Run(i));
      s'.Running(i) && s'.past.done == s.past.done && s'.threads[i].called == s.threads[i].called
  {
  }

  lemma StepTallied<T>(s: State<T>, i: nat, made: seq<Made<T>>, backs: seq<Back<T>>)
    requires Core(s) && s.Running(i) && Tallied(s, i, made, backs) && s.threads[i].pc != Idle
      && !s.threads[i].pc.Returning?
    ensures var s' := Apply(s, Run(i));
      s'.Running(i) && s'.threads[i].pc != Idle && Tallied(s', i, made, backs)
  {
    StepStays(s, i);
    match made[|s.past.done[i]|].call
    case Push(item) => PushDoing(s, i, item);
    case Pop => PopDoing(s, i);
    case _ => LookDoing(s, i, made[|s.past.done[i]|].call);
  }

  lemma ReturnTallied<T>(s: State<T>, i: nat, made: seq<Made<T>>, backs: seq<Back<T>>)
    requires s.Running(i) && Tallied(s, i, made, backs) && s.threads[i].pc.Returning?
    ensures var s' := Apply(s, Run(i));
      s'.Running(i) && Idles(s', i) && Tallied(s', i, made, backs + [Back(s.threads[i].pc.answer, |s.past.moments|)])
  {
  }

  lemma ActionTallied<T>(s: State<T>, a: Action<T>, i: nat, made: seq<Made<T>>, backs: seq<Back<T>>)
    requires Core(s) && s.Running(i) && Tallied(s, i, made, backs)
    ensures var s' := Apply(s, a);
      && s'.Running(i)
      && Tallied(s', i,
           made + (if a.Call? && a.tid == i && Idles(s, i) then [Made(a.call, |s.past.moments|)] else []),
           backs + (if Returns(s, s', i) then [Back(s.threads[i].pc.answer, |s.past.moments|)] else []))
  {
    assert made + [] == made && backs + [] == backs;
    if a.tid != i {
      OthersStay(s, a, i);
      OthersTallied(s, a, i, made, backs);
    } else if a.Call? {
      CallTallied(s, i, a.call, made, backs);
    } else if s.threads[i].pc.Returning? {
      ReturnTallied(s, i, made, backs);
    } else if s.threads[i].pc != Idle {
      StepTallied(s, i, made, backs);
    }
  }

  // ---- Every run --------------------------------------------------------

  lemma {:induction false} RunKeeps<T>(n: nat, zero: T, schedule: seq<Action<T>>)
    ensures var s := Exec(n, zero, schedule);
      && Core(s) && Recorded(s) && Counted(s)
      && |s.threads| == |s.past.done| == n && |s.past.moments| == Clock(n, schedule)
  {
    if schedule == [] {
      InitOK(n, zero);
    } else {
      var before, last := Exec(n, zero, schedule[..|schedule| - 1]), schedule[|schedule| - 1];
      RunKeeps(n, zero, schedule[..|schedule| - 1]);
      ApplyKeeps(before, last);
      ActionRecorded(before, last);
      ActionCounted(before, last);
      ActionTicks(before, last);
    }
  }

  lemma ActionTicks<T>(s: State<T>, a: Action<T>)
    requires |s.threads| == |s.past.done|
    ensures var s' := Apply(s, a);
      && |s'.threads| == |s'.past.done| == |s.threads|
      && |s'.past.moments| == |s.past.moments| + if a.tid < |s.threads| then 1 else 0
  {
  }

  lemma {:induction false} RunTallied<T>(n: nat, zero: T, schedule: seq<Action<T>>, i: nat)
    requires i < n
    ensures var s := Exec(n, zero, schedule);
      s.Running(i) && Tallied(s, i, Accepted(n, zero, schedule, i), Returned(n, zero, schedule, i))
  {
    if schedule != [] {
      var before := schedule[..|schedule| - 1];
      RunTallied(n, zero, before, i);
      RunKeeps(n, zero, before);
      ActionTallied(Exec(n, zero, before), schedule[|schedule| - 1], i,
        Accepted(n, zero, before, i), Returned(n, zero, before, i));
    }
  }

  // A call that the schedule makes, with an answer to it, from its start to its end; a call that has
  // not come back counts as ending now.
  ghost predicate OfSchedule<T>(n: nat, zero: T, schedule: seq<Action<T>>, op: Op<T>) {
    var made, backs := Accepted(n, zero, schedule, op.tid), Returned(n, zero, schedule, op.tid);
    && op.tid < n && op.nth < |made| && Serves(made[op.nth].call, op.answer) && op.called == made[op.nth].step
    && if op.nth < |backs| then op.answer == backs[op.nth].answer && op.returned == backs[op.nth].step
       else op.nth == |made| - 1 && op.returned == Clock(n, schedule)
  }

  ghost predicate StandsIn<T>(order: seq<Op<T>>, i: nat, r: nat) {
    exists p {:trigger order[p]} :: 0 <= p < |order| && order[p].tid == i && order[p].nth == r
  }

  /** The order holds calls of the schedule, and all that have come back. */
  ghost predicate Accounts<T>(n: nat, zero: T, schedule: seq<Action<T>>, order: seq<Op<T>>) {
    && (forall p {:trigger order[p]} :: 0 <= p < |order| ==> OfSchedule(n, zero, schedule, order[p]))
    && (forall i: nat, r: nat {:trigger StandsIn(order, i, r)} ::
          i < n && r < |Returned(n, zero, schedule, i)| ==> StandsIn(order, i, r))
  }

  // What a running call has done by its link or unlink answers it.
  lemma UnderWayServes<T>(s: State<T>, op: Op<T>, made: seq<Made<T>>, backs: seq<Back<T>>)
    requires Core(s) && s.Running(op.tid) && Tallied(s, op.tid, made, backs)
    requires op.nth == |s.past.done[op.tid]| && UnderWay(s, op)
    ensures op.nth < |made| && Serves(made[op.nth].call, op.answer)
  {
    assert LocalOK(s, op.tid, s.threads[op.tid]);
  }

  lemma GenuineOfSchedule<T>(n: nat, zero: T, schedule: seq<Action<T>>, op: Op<T>)
    requires Genuine(Exec(n, zero, schedule), op)
    ensures OfSchedule(n, zero, schedule, op)
  {
    var s, made, backs := Exec(n, zero, schedule), Accepted(n, zero, schedule, op.tid),
      Returned(n, zero, schedule, op.tid);
    RunKeeps(n, zero, schedule);
    RunTallied(n, zero, schedule, op.tid);
    if op.nth < |s.past.done[op.tid]| {
      assert AnsweredAt(made[op.nth], backs[op.nth], s.past.done[op.tid][op.nth]);
    } else {
      UnderWayServes(s, op, made, backs);
    }
  }

  lemma ExplainsAccounts<T>(n: nat, zero: T, schedule: seq<Action<T>>, order: seq<Op<T>>)
    requires Explains(Exec(n, zero, schedule), order)
    ensures Accounts(n, zero, schedule, order)
  {
    var s := Exec(n, zero, schedule);
    forall p {:trigger order[p]} | 0 <= p < |order| ensures OfSchedule(n, zero, schedule, order[p]) {
      GenuineOfSchedule(n, zero, schedule, order[p]);
    }
    RunKeeps(n, zero, schedule);
    forall i: nat, r: nat {:trigger StandsIn(order, i, r)} | i < n && r < |Returned(n, zero, schedule, i)|
      ensures StandsIn(order, i, r)
    {
      RunTallied(n, zero, schedule, i);
      assert s.past.done[i][r] in order && OpOK(s.past, i, r);
      var p :| 0 <= p < |order| && order[p] == s.past.done[i][r];
    }
  }

  /** Any number of threads, under any schedule, keep the queue linearizable: there is an order of
      the calls that the schedule makes that explains every answer they get.  The list is well formed
      in every state, with head at or before tail and tail at most one node behind, and the counter is
      off by exactly the pushes and pops that are about to count. */
  lemma Linearizable<T>(n: nat, zero: T, schedule: seq<Action<T>>)
    ensures var s := Exec(n, zero, schedule);
      && Core(s) && Recorded(s) && Counted(s)
      && (exists order :: Explains(s, order) && Accounts(n, zero, schedule, order))
  {
    var s := Exec(n, zero, schedule);
    RunKeeps(n, zero, schedule);
    RecordExplains(s);
    ExplainsAccounts(n, zero, schedule, Sequential(s, s.Now()));
    assert Explains(s, Sequential(s, s.Now()));
  }

  // ---- What Size says -----------------------------------------------------

  // The counter stood at this value at some moment between the two steps.
  ghost predicate CountWas<T>(n: nat, zero: T, schedule: seq<Action<T>>, from: nat, to: nat, size: int) {
    exists j: nat {:trigger schedule[..j]} ::
      j <= |schedule| && from <= Clock(n, schedule[..j]) <= to && Exec(n, zero, schedule[..j]).count == size
  }

  lemma CountStill<T>(n: nat, zero: T, schedule: seq<Action<T>>, from: nat, to: nat, size: int, to': nat)
    requires schedule != [] && CountWas(n, zero, schedule[..|schedule| - 1], from, to, size) && to <= to'
    ensures CountWas(n, zero, schedule, from, to', size)
  {
    var before := schedule[..|schedule| - 1];
    var j: nat :| j <= |before| && from <= Clock(n, before[..j]) <= to && Exec(n, zero, before[..j]).count == size;
    assert before[..j] == schedule[..j];
  }

  // A call that is about to say a size, or that thread i made as its rth.
  ghost predicate SizesKnown<T>(n: nat, zero: T, schedule: seq<Action<T>>, i: nat) {
    var s := Exec(n, zero, schedule);
    && s.Running(i)
    && (forall r {:trigger s.past.done[i][r]} :: 0 <= r < |s.past.done[i]| && s.past.done[i][r].answer.SizeSaid? ==>
          CountWas(n, zero, schedule, s.past.done[i][r].called, s.past.done[i][r].returned,
            s.past.done[i][r].answer.size))
    && (s.threads[i].pc.Returning? && s.threads[i].pc.answer.SizeSaid? ==>
          CountWas(n, zero, schedule, s.threads[i].called, Clock(n, schedule), s.threads[i].pc.answer.size))
  }

  // The step that brings a thread to the answer reads the counter.
  lemma SizeRead<T>(s: State<T>, i: nat)
    requires Core(s) && Recorded(s) && s.Running(i) && Busy(s, i)
    ensures var s' := Apply(s, Run(i));
      && s'.Running(i) && s'.threads[i].called == s.threads[i].called <= |s.past.moments|
      && (s'.threads[i].pc.Returning? && s'.threads[i].pc.answer.SizeSaid? ==> s'.threads[i].pc.answer.size == s.count)
      && s'.past.done[i] == s.past.done[i] + (if !s.threads[i].pc.Returning? then [] else
           [Op(i, |s.past.done[i]|, s.threads[i].pc.answer, s.threads[i].since, s.threads[i].pc.at, s.Now(),
               s.threads[i].called, |s.past.moments|)])
  {
    assert Timed(s, i);
    Dereferenced(s, i);
  }

  lemma SizeUntouched<T>(s: State<T>, a: Action<T>, i: nat)
    requires s.Running(i) && (a.tid != i || a.Call? || !Busy(s, i))
    ensures var s' := Apply(s, a);
      && s'.Running(i) && s'.past.done[i] == s.past.done[i]
      && (s'.threads[i].pc.Returning? ==>
           s'.threads[i].pc == s.threads[i].pc && s'.threads[i].called == s.threads[i].called)
  {
    if a.tid != i { OthersStay(s, a, i); }
  }

  lemma {:induction false} RunSizes<T>(n: nat, zero: T, schedule: seq<Action<T>>, i: nat)
    requires i < n
    ensures SizesKnown(n, zero, schedule, i)
  {
    if schedule != [] {
      var before, a := schedule[..|schedule| - 1], schedule[|schedule| - 1];
      var s, s' := Exec(n, zero, before), Exec(n, zero, schedule);
      RunSizes(n, zero, before, i);
      RunKeeps(n, zero, before);
      RunKeeps(n, zero, schedule);
      if a.tid != i || a.Call? || !Busy(s, i) { SizeUntouched(s, a, i); } else { SizeRead(s, i); }
      forall r {:trigger s'.past.done[i][r]} | 0 <= r < |s'.past.done[i]| && s'.past.done[i][r].answer.SizeSaid?
        ensures CountWas(n, zero, schedule, s'.past.done[i][r].called, s'.past.done[i][r].returned,
          s'.past.done[i][r].answer.size)
      {
        var op := s'.past.done[i][r];
        if r < |s.past.done[i]| { assert op == s.past.done[i][r]; }
        CountStill(n, zero, schedule, op.called, op.returned, op.answer.size, op.returned);
      }
      var th := s'.threads[i];
      if th.pc.Returning? && th.pc.answer.SizeSaid? {
        if s.threads[i].pc == th.pc && s.threads[i].called == th.called {
          CountStill(n, zero, schedule, th.called, Clock(n, before), th.pc.answer.size, Clock(n, schedule));
        } else {
          assert schedule[..|before|] == before;
        }
      }
    }
  }

  /** The size that a call says was, at some moment of the call, the length of the queue but for the
      pushes and pops that had not counted yet. */
  lemma SizeMeans<T>(n: nat, zero: T, schedule: seq<Action<T>>, i: nat, r: nat)
    requires i < n && r < |Returned(n, zero, schedule, i)| && Returned(n, zero, schedule, i)[r].answer.SizeSaid?
    ensures r < |Accepted(n, zero, schedule, i)|
    ensures exists j: nat {:trigger schedule[..j]} ::
      && j <= |schedule|
      && Accepted(n, zero, schedule, i)[r].step <= Clock(n, schedule[..j]) <= Returned(n, zero, schedule, i)[r].step
      && var t := Exec(n, zero, schedule[..j]);
         Shape(t) && Returned(n, zero, schedule, i)[r].answer.size + Total(Dues(t.threads)) == |Contents(t)|
  {
    var s, made, back := Exec(n, zero, schedule), Accepted(n, zero, schedule, i), Returned(n, zero, schedule, i)[r];
    RunTallied(n, zero, schedule, i);
    RunSizes(n, zero, schedule, i);
    var op := s.past.done[i][r];
    assert AnsweredAt(made[r], back, op);
    var j: nat :| j <= |schedule| && op.called <= Clock(n, schedule[..j]) <= op.returned
                  && Exec(n, zero, schedule[..j]).count == op.answer.size;
    RunKeeps(n, zero, schedule[..j]);
  }

  // ---- How many steps calls take --------------------------------------------

  function CallsMade<T>(n: nat, zero: T, schedule: seq<Action<T>>): (calls: nat) {
    if schedule == [] then 0
    else
      var before, last := schedule[..|schedule| - 1], schedule[|schedule| - 1];
      CallsMade(n, zero, before) + if last.Call? && Idles(Exec(n, zero, before), last.tid) then 1 else 0
  }

  // The steps that threads make for their calls.
  function StepsMade<T>(n: nat, zero: T, schedule: seq<Action<T>>): (steps: nat) {
    if schedule == [] then 0
    else
      var before, last := schedule[..|schedule| - 1], schedule[|schedule| - 1];
      StepsMade(n, zero, before) + if last.Run? && Busy(Exec(n, zero, before), last.tid) then 1 else 0
  }

  // At most this many more steps of its own bring a thread home, unless head, tail or list move.
  ghost function Left<T>(s: State<T>, pc: PC<T>): (steps: nat)
    ensures steps <= 9
  {
    match pc
    case Idle => 0
    case PushLoadTail(_) => 4
    case PushLoadNext(_, tail) => if tail == s.tail then 3 else 6
    case PushCheckTail(_, tail, next) =>
      if tail != s.tail then 5 else if next == None && LinkedOn(s, tail) then 6 else 2
    case PushLink(_, tail) => if LinkedOn(s, tail) then 5 else 1
    case PushSwing(_, _, _) => 3
    case PushCount(_, _) => 2
    case PushHelp(_, tail, _) => if tail == s.tail then 1 else 5
    case PopLoadHead => 6
    case PopLoadTail(head) => if head == s.head then 5 else 9
    case PopLoadNext(head, tail) => if head != s.head then 8 else if head == tail != s.tail then 9 else 4
    case PopCheckHead(head, tail, next, _) =>
      if head != s.head then 7 else if head == tail != s.tail && next.Some? then 8 else 3
    case PopHelp(tail, _) => if tail == s.tail then 1 else 7
    case PopReadValue(head, _) => if head == s.head then 2 else 8
    case PopSwing(head, _, _) => if head == s.head then 1 else 7
    case PopCount(_, _) => 2
    case LookLoadHead(_) => 4
    case LookLoadNext(_, _, _) => 3
    case LookReadValue(_, _, _) => 2
    case SizeLoad => 2
    case Returning(_, _) => 1
  }

  ghost predicate LinkedOn<T>(s: State<T>, p: nat) { p < |s.nodes| && s.nodes[p].next.Some? }

  // Links, unlinks and moves of the tail.
  function Events<T>(s: State<T>): nat { |s.past.changes| + s.past.t }

  ghost function Lefts<T>(s: State<T>): (dues: seq<int>)
    ensures |dues| == |s.threads|
  {
    seq(|s.threads|, k requires 0 <= k < |s.threads| => Left(s, s.threads[k].pc))
  }

  // An action without event: head, tail and the links stay, and new nodes are linked to nothing.
  ghost predicate Eventless<T>(s: State<T>, s': State<T>) {
    && s'.head == s.head && s'.tail == s.tail && |s.nodes| <= |s'.nodes| && |s'.threads| == |s.threads|
    && (forall k {:trigger s'.nodes[k]} :: 0 <= k < |s.nodes| ==> s'.nodes[k].next == s.nodes[k].next)
    && (forall k {:trigger s'.nodes[k]} :: |s.nodes| <= k < |s'.nodes| ==> s'.nodes[k].next == None)
  }

  lemma LeftStays<T>(s: State<T>, s': State<T>, pc: PC<T>)
    requires Eventless(s, s')
    ensures Left(s', pc) == Left(s, pc)
  {
  }

  // The step of thread i is an event, or one step less is left.
  ghost predicate Advances<T>(s: State<T>, s': State<T>, i: nat)
    requires i < |s.threads| && i < |s'.threads|
  {
    || Events(s') > Events(s)
    || (Events(s') == Events(s) && Eventless(s, s') && Left(s', s'.threads[i].pc) < Left(s, s.threads[i].pc))
  }

  lemma PushWalkLeft<T>(s: State<T>, i: nat)
    requires Core(s) && s.Running(i)
    requires var pc := s.threads[i].pc; pc.PushLoadTail? || pc.PushLoadNext? || pc.PushCheckTail?
    ensures |Apply(s, Run(i)).threads| == |s.threads| && Advances(s, Apply(s, Run(i)), i)
  {
    Dereferenced(s, i);
  }

  lemma PushLinkLeft<T>(s: State<T>, i: nat)
    requires Core(s) && s.Running(i)
    requires var pc := s.threads[i].pc; pc.PushLink? || pc.PushSwing? || pc.PushCount? || pc.PushHelp?
    ensures |Apply(s, Run(i)).threads| == |s.threads| && Advances(s, Apply(s, Run(i)), i)
  {
    assert LocalOK(s, i, s.threads[i]);
  }

  lemma PopWalkLeft<T>(s: State<T>, i: nat)
    requires Core(s) && s.Running(i)
    requires var pc := s.threads[i].pc; pc.PopLoadHead? || pc.PopLoadTail? || pc.PopLoadNext?
    ensures |Apply(s, Run(i)).threads| == |s.threads| && Advances(s, Apply(s, Run(i)), i)
  {
    Dereferenced(s, i);
  }

  lemma PopCheckLeft<T>(s: State<T>, i: nat)
    requires Core(s) && s.Running(i)
    requires s.threads[i].pc.PopCheckHead?
    ensures |Apply(s, Run(i)).threads| == |s.threads| && Advances(s, Apply(s, Run(i)), i)
  {
    Dereferenced(s, i);
  }

  lemma PopHelpLeft<T>(s: State<T>, i: nat)
    requires Core(s) && s.Running(i)
    requires s.threads[i].pc.PopHelp?
    ensures |Apply(s, Run(i)).threads| == |s.threads| && Advances(s, Apply(s, Run(i)), i)
  {
  }

  lemma PopTakeLeft<T>(s: State<T>, i: nat)
    requires Core(s) && s.Running(i)
    requires var pc := s.threads[i].pc; pc.PopReadValue? || pc.PopSwing? || pc.PopCount?
    ensures |Apply(s, Run(i)).threads| == |s.threads| && Advances(s, Apply(s, Run(i)), i)
  {
    assert LocalOK(s, i, s.threads[i]);
  }

  lemma LookLeft<T>(s: State<T>, i: nat)
    requires Core(s) && s.Running(i)
    requires var pc := s.threads[i].pc;
      pc.LookLoadHead? || pc.LookLoadNext? || pc.LookReadValue? || pc.SizeLoad? || pc.Returning?
    ensures |Apply(s, Run(i)).threads| == |s.threads| && Advances(s, Apply(s, Run(i)), i)
  {
    Dereferenced(s, i);
  }

  lemma Dereferenced<T>(s: State<T>, i: nat)
    requires Core(s) && s.Running(i)
    ensures Dereferences(s.threads[i].pc, |s.nodes|)
  {
    StepKeeps(s, i);
  }

  lemma BusyLeft<T>(s: State<T>, i: nat)
    requires Core(s) && s.Running(i) && Busy(s, i)
    ensures |Apply(s, Run(i)).threads| == |s.threads| && Advances(s, Apply(s, Run(i)), i)
  {
    match s.threads[i].pc
    case PopLoadHead => PopWalkLeft(s, i);
    case PopLoadTail(_) => PopWalkLeft(s, i);
    case PopLoadNext(_, _) => PopWalkLeft(s, i);
    case PopCheckHead(_, _, _, _) => PopCheckLeft(s, i);
    case PopHelp(_, _) => PopHelpLeft(s, i);
    case PopReadValue(_, _) => PopTakeLeft(s, i);
    case PopSwing(_, _, _) => PopTakeLeft(s, i);
    case PopCount(_, _) => PopTakeLeft(s, i);
    case LookLoadHead(_) => LookLeft(s, i);
    case LookLoadNext(_, _, _) => LookLeft(s, i);
    case LookReadValue(_, _, _) => LookLeft(s, i);
    case SizeLoad => LookLeft(s, i);
    case Returning(_, _) => LookLeft(s, i);
    case PushLoadTail(_) => PushWalkLeft(s, i);
    case PushLoadNext(_, _) => PushWalkLeft(s, i);
    case PushCheckTail(_, _, _) => PushWalkLeft(s, i);
    case _ => PushLinkLeft(s, i);
  }

  lemma LeftsMove<T>(s: State<T>, s': State<T>, i: nat)
    requires i < |s.threads| && Eventless(s, s')
    requires forall j {:trigger s'.threads[j]} :: 0 <= j < |s.threads| && j != i ==> s'.threads[j].pc == s.threads[j].pc
    ensures Total(Lefts(s')) - Total(Lefts(s)) == Left(s', s'.threads[i].pc) - Left(s, s.threads[i].pc)
  {
    forall j {:trigger Lefts(s')[j]} | 0 <= j < |s.threads| && j != i ensures Lefts(s')[j] == Lefts(s)[j] {
      assert s'.threads[j].pc == s.threads[j].pc;
      LeftStays(s, s', s.threads[j].pc);
    }
    TotalUpdate(Lefts(s), Lefts(s'), i);
  }

  // Only a link touches other threads.
  lemma MoverAlone<T>(s: State<T>, i: nat)
    requires s.Running(i)
    ensures var s' := Apply(s, Run(i));
      && |s'.threads| == |s.threads| && Events(s') >= Events(s)
      && (Events(s') == Events(s) ==>
            forall j {:trigger s'.threads[j]} :: 0 <= j < |s.threads| && j != i ==> s'.threads[j].pc == s.threads[j].pc)
  {
  }

  // Without an event a step leaves less to do.
  lemma QuietPrice<T>(s: State<T>, i: nat)
    requires Core(s) && s.Running(i) && Events(Apply(s, Run(i))) == Events(s)
    ensures (if Busy(s, i) then 1 else 0) + Total(Lefts(Apply(s, Run(i)))) <= Total(Lefts(s))
  {
    var s' := Apply(s, Run(i));
    MoverAlone(s, i);
    if Busy(s, i) { BusyLeft(s, i); } else { assert Eventless(s, s'); }
    LeftsMove(s, s', i);
  }

  // At an event every thread may have to start over.
  lemma EventPrice<T>(s: State<T>, s': State<T>, i: nat, n: nat)
    requires |s.threads| == |s'.threads| == n && Busy(s, i)
    ensures 1 + Total(Lefts(s')) <= Total(Lefts(s)) + 9 * n
  {
    TotalWithin(Lefts(s'), 9);
    TotalAtLeast(Lefts(s), i);
  }

  lemma IdleQuiet<T>(s: State<T>, i: nat)
    requires s.Running(i) && !Busy(s, i)
    ensures Events(Apply(s, Run(i))) == Events(s)
  {
  }

  // The sums with the price of a step: nothing, or nine steps for each thread at an event.
  lemma Afford(steps: int, calls: int, n: nat, e: nat, left: int, step: int, e': nat, left': int)
    requires steps + left <= 9 * calls + 9 * n * e && e <= e'
    requires if e' == e then step + left' <= left else step + left' <= left + 9 * n
    ensures steps + step + left' <= 9 * calls + 9 * n * e'
  {
    if e < e' { Monotone(9 * n, e + 1, e'); }
  }

  // A call starts a thread and is no event.
  lemma CallQuiet<T>(s: State<T>, i: nat, call: Call<T>)
    requires s.Running(i)
    ensures var s' := Apply(s, Action.Call(i, call));
      && Events(s') == Events(s) && Eventless(s, s') && (Idles(s, i) || s'.threads == s.threads)
      && forall j {:trigger s'.threads[j]} :: 0 <= j < |s.threads| && j != i ==> s'.threads[j].pc == s.threads[j].pc
  {
  }

  lemma CallPrice<T>(s: State<T>, i: nat, call: Call<T>)
    requires s.Running(i)
    ensures Events(Apply(s, Action.Call(i, call))) == Events(s)
    ensures Total(Lefts(Apply(s, Action.Call(i, call)))) <= Total(Lefts(s)) + if Idles(s, i) then 9 else 0
  {
    var s' := Apply(s, Action.Call(i, call));
    CallQuiet(s, i, call);
    LeftsMove(s, s', i);
    if s'.threads == s.threads { LeftStays(s, s', s.threads[i].pc); }
  }

  // Whether a call is under way that has not taken effect.
  function PendingAt<T>(pc: PC<T>): int {
    if pc == Idle || Effect(pc).Some? then 0 else 1
  }

  ghost function Pending<T>(threads: seq<Thread<T>>): (dues: seq<int>)
    ensures |dues| == |threads|
  {
    seq(|threads|, k requires 0 <= k < |threads| => PendingAt(threads[k].pc))
  }

  // Each call links or unlinks once at most, and each link lets the tail move once.
  ghost predicate Paid<T>(s: State<T>, s': State<T>, i: nat, calls: nat) {
    && i < |s.threads| == |s'.threads|
    && |s'.past.changes| + PendingAt(s'.threads[i].pc) <= |s.past.changes| + PendingAt(s.threads[i].pc) + calls
    && |s'.past.chain| - |s'.past.changes| <= |s.past.chain| - |s.past.changes|
    && forall j {:trigger s'.threads[j]} :: 0 <= j < |s.threads| && j != i ==>
         PendingAt(s'.threads[j].pc) == PendingAt(s.threads[j].pc)
  }

  lemma PushPaid<T>(s: State<T>, i: nat)
    requires s.Running(i) && (s.threads[i].pc.PushLoadTail? || Pushing(s.threads[i].pc))
    ensures Paid(s, Apply(s, Run(i)), i, 0)
  {
  }

  lemma PopPaid<T>(s: State<T>, i: nat)
    requires s.Running(i)
    requires var pc := s.threads[i].pc;
      || pc.PopLoadHead? || pc.PopLoadTail? || pc.PopLoadNext? || pc.PopCheckHead? || pc.PopHelp?
      || pc.PopReadValue? || pc.PopSwing? || pc.PopCount?
    ensures Paid(s, Apply(s, Run(i)), i, 0)
  {
  }

  lemma LookPaid<T>(s: State<T>, i: nat)
    requires s.Running(i)
    requires var pc := s.threads[i].pc;
      pc.Idle? || pc.LookLoadHead? || pc.LookLoadNext? || pc.LookReadValue? || pc.SizeLoad? || pc.Returning?
    ensures Paid(s, Apply(s, Run(i)), i, 0)
  {
  }

  lemma ActionPaid<T>(s: State<T>, a: Action<T>)
    requires s.Running(a.tid)
    ensures Paid(s, Apply(s, a), a.tid, if a.Call? && Idles(s, a.tid) then 1 else 0)
  {
    if a.Run? {
      var pc := s.threads[a.tid].pc;
      if pc.PushLoadTail? || Pushing(pc) {
        PushPaid(s, a.tid);
      } else if pc.Idle? || pc.LookLoadHead? || pc.LookLoadNext? || pc.LookReadValue? || pc.SizeLoad? || pc.Returning? {
        LookPaid(s, a.tid);
      } else {
        PopPaid(s, a.tid);
      }
    }
  }

  // So far: steps made and left are paid for by calls and events, and events by calls.
  ghost predicate Balanced<T>(s: State<T>, n: nat, steps: nat, calls: nat) {
    && |s.threads| == n
    && steps + Total(Lefts(s)) <= 9 * calls + 9 * n * Events(s)
    && |s.past.changes| + Total(Pending(s.threads)) <= calls
    && |s.past.chain| - 1 <= |s.past.changes|
  }

  lemma ChangesPaid<T>(s: State<T>, s': State<T>, i: nat, more: nat, calls: nat)
    requires Paid(s, s', i, more)
    requires |s.past.changes| + Total(Pending(s.threads)) <= calls && |s.past.chain| - 1 <= |s.past.changes|
    ensures |s'.past.changes| + Total(Pending(s'.threads)) <= calls + more && |s'.past.chain| - 1 <= |s'.past.changes|
  {
    TotalUpdate(Pending(s.threads), Pending(s'.threads), i);
  }

  lemma RunBalanced<T>(s: State<T>, i: nat, n: nat, steps: nat, calls: nat)
    requires Core(s) && s.Running(i) && Balanced(s, n, steps, calls)
    ensures Balanced(Apply(s, Run(i)), n, steps + (if Busy(s, i) then 1 else 0), calls)
  {
    var s' := Apply(s, Run(i));
    ActionPaid(s, Run(i));
    ChangesPaid(s, s', i, 0, calls);
    MoverAlone(s, i);
    if Events(s') == Events(s) {
      QuietPrice(s, i);
    } else {
      if !Busy(s, i) { IdleQuiet(s, i); }
      EventPrice(s, s', i, n);
    }
    Afford(steps, calls, n, Events(s), Total(Lefts(s)), if Busy(s, i) then 1 else 0, Events(s'), Total(Lefts(s')));
  }

  lemma CallBalanced<T>(s: State<T>, i: nat, call: Call<T>, n: nat, steps: nat, calls: nat)
    requires Core(s) && s.Running(i) && Balanced(s, n, steps, calls)
    ensures Balanced(Apply(s, Action.Call(i, call)), n, steps, calls + if Idles(s, i) then 1 else 0)
  {
    var a := Action.Call(i, call);
    ActionPaid(s, a);
    ChangesPaid(s, Apply(s, a), i, if Idles(s, i) then 1 else 0, calls);
    CallPrice(s, i, call);
  }

  lemma {:induction false} AllBalanced<T>(n: nat, zero: T, schedule: seq<Action<T>>)
    ensures Balanced(Exec(n, zero, schedule), n, StepsMade(n, zero, schedule), CallsMade(n, zero, schedule))
  {
    if schedule == [] {
      TotalZero(Lefts(Exec(n, zero, schedule)));
      TotalZero(Pending(Exec(n, zero, schedule).threads));
    } else {
      var before, a := schedule[..|schedule| - 1], schedule[|schedule| - 1];
      var s, steps, calls := Exec(n, zero, before), StepsMade(n, zero, before), CallsMade(n, zero, before);
      AllBalanced(n, zero, before);
      RunKeeps(n, zero, before);
      if s.Running(a.tid) {
        match a
        case Call(i, call) => CallBalanced(s, i, call, n, steps, calls);
        case Run(i) => RunBalanced(s, i, n, steps, calls);
      }
    }
  }

  // Every event is paid for by a call.
  lemma EventsPaid<T>(s: State<T>, n: nat, steps: nat, calls: nat)
    requires Shape(s) && Balanced(s, n, steps, calls)
    ensures Events(s) <= 2 * calls && steps <= 9 * calls + 9 * n * Events(s)
  {
    TotalAtLeast(Lefts(s), |s.threads|);
    TotalAtLeast(Pending(s.threads), |s.threads|);
  }

  /** However the threads are scheduled, they make no more than 9 * (2n + 1) steps for each call made:
      threads cannot keep stepping without finishing calls. */
  lemma LockFree<T>(n: nat, zero: T, schedule: seq<Action<T>>)
    ensures StepsMade(n, zero, schedule) <= 9 * (2 * n + 1) * CallsMade(n, zero, schedule)
  {
    var s, calls := Exec(n, zero, schedule), CallsMade(n, zero, schedule);
    AllBalanced(n, zero, schedule);
    RunKeeps(n, zero, schedule);
    EventsPaid(s, n, StepsMade(n, zero, schedule), calls);
    Monotone(9 * n, Events(s), 2 * calls);
    Total9(n, calls);
  }

  lemma Total9(n: nat, calls: nat)
    ensures 9 * calls + 9 * n * (2 * calls) == 9 * (2 * n + 1) * calls
  {
  }
}

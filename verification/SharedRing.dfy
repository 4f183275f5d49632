/** The shared-memory ring: any number of writers and readers claim slots by compare-and-swap on
    the slot flag and then on an index; a claim that loses the second race is given back. */
module SharedRings {
  import opened Arithmetic
  import opened Wrappers

  datatype Flag = Empty | Writing | Ready | Reading

  // `last` is the ring index most recently assigned to the slot; it is only for the proof.
  datatype Slot<B> = Slot(flag: Flag, len: nat, bytes: seq<B>, last: int)

  datatype Call<B> = Write(msg: seq<B>) | Read

  datatype Answer<B> = TooLarge | Full | Wrote(index: nat) | NothingReady | Got(index: nat, msg: seq<B>)

  // `was` remembers the slot as it was before a claim that is not yet decided.
  datatype PC<B> =
    | Idle
    | WriteCheckSize(msg: seq<B>)
    | WriteLoadIndex(msg: seq<B>)
    | WriteLoadFlag(msg: seq<B>, index: nat)
    | WriteClaim(msg: seq<B>, index: nat)
    | WriteAdvance(msg: seq<B>, index: nat, was: Slot<B>)
    | WriteRelease(msg: seq<B>, index: nat, was: Slot<B>)
    | WritePutLen(msg: seq<B>, index: nat)
    | WriteCopy(msg: seq<B>, index: nat)
    | WriteReady(msg: seq<B>, index: nat)
    | WriteCount(msg: seq<B>, index: nat)
    | ReadLoadIndex
    | ReadLoadFlag(index: nat)
    | ReadClaim(index: nat)
    | ReadAdvance(index: nat, was: Slot<B>)
    | ReadRelease(index: nat, was: Slot<B>)
    | ReadGetLen(index: nat)
    | ReadCopy(index: nat, len: nat)
    | ReadClear(index: nat, msg: seq<B>)
    | ReadCount(index: nat, msg: seq<B>)
    | Returning(answer: Answer<B>)

  // The ring proper, and what the proof remembers: the thread that last claimed each slot, every
  // message for which an index was won, the reader that won each index, and what has been handed
  // out for it.
  datatype State<B> = State(
    slots: seq<Slot<B>>, writeIndex: nat, readIndex: nat, messageCount: nat, threads: seq<PC<B>>,
    owners: seq<nat>, written: seq<seq<B>>, readers: seq<nat>, delivered: map<nat, seq<B>>)
  {
    predicate Running(i: nat) { i < |threads| && |slots| > 0 && |owners| == |slots| }

    function At(index: int): (k: nat)
      requires |slots| > 0
      ensures k < |slots|
    {
      index % |slots|
    }

    function Goto(i: nat, pc: PC<B>): State<B>
      requires i < |threads|
    {
      this.(threads := threads[i := pc])
    }

    function Put(k: nat, slot: Slot<B>): State<B>
      requires k < |slots|
    {
      this.(slots := slots[k := slot])
    }

    function Own(k: nat, i: nat): State<B>
      requires k < |owners|
    {
      this.(owners := owners[k := i])
    }
  }

  const WORD: nat := 0x1_0000_0000_0000_0000

  // A ring of n empty slots with room for `room` bytes of data each, and m threads.
  function Init<B>(n: nat, room: nat, zero: B, m: nat): State<B>
    requires n > 0
  {
    State(seq(n, k => Slot(Empty, 0, seq(room, _ => zero), k - n)), 0, 0, 0, seq(m, _ => Idle), seq(n, _ => 0), [],
      [], map[])
  }

  function Overwrite<B>(bytes: seq<B>, msg: seq<B>): seq<B> {
    if |msg| <= |bytes| then msg + bytes[|msg|..] else bytes
  }

  function Invoke<B>(s: State<B>, i: nat, call: Call<B>): State<B>
    requires s.Running(i)
  {
    if s.threads[i] != Idle then s
    else
      match call
      case Write(msg) => s.Goto(i, WriteCheckSize(msg))
      case Read => s.Goto(i, ReadLoadIndex)
  }

  // The next atomic step of thread i.
  function Step<B>(s: State<B>, i: nat): State<B>
    requires s.Running(i)
  {
    match s.threads[i]
    case Idle => s
    case WriteCheckSize(msg) =>
      if |msg| > |s.slots[0].bytes| then s.Goto(i, Returning(TooLarge)) else s.Goto(i, WriteLoadIndex(msg))
    case WriteLoadIndex(msg) => s.Goto(i, WriteLoadFlag(msg, s.writeIndex))
    case WriteLoadFlag(msg, index) =>
      if s.slots[s.At(index)].flag != Empty then s.Goto(i, Returning(Full)) else s.Goto(i, WriteClaim(msg, index))
    case WriteClaim(msg, index) =>
      var slot := s.slots[s.At(index)];
      if slot.flag != Empty then s.Goto(i, WriteLoadIndex(msg))
      else s.Put(s.At(index), slot.(flag := Writing)).Own(s.At(index), i).Goto(i, WriteAdvance(msg, index, slot))
    case WriteAdvance(msg, index, was) =>
      if s.writeIndex != index then s.Goto(i, WriteRelease(msg, index, was))
      else
        s.Put(s.At(index), s.slots[s.At(index)].(last := index))
        .(writeIndex := index + 1, written := s.written + [msg])
        .Goto(i, WritePutLen(msg, index))
    case WriteRelease(msg, index, was) =>
      s.Put(s.At(index), s.slots[s.At(index)].(flag := Empty)).Goto(i, WriteLoadIndex(msg))
    case WritePutLen(msg, index) =>
      s.Put(s.At(index), s.slots[s.At(index)].(len := |msg|)).Goto(i, WriteCopy(msg, index))
    case WriteCopy(msg, index) =>
      var slot := s.slots[s.At(index)];
      s.Put(s.At(index), slot.(bytes := Overwrite(slot.bytes, msg))).Goto(i, WriteReady(msg, index))
    case WriteReady(msg, index) =>
      s.Put(s.At(index), s.slots[s.At(index)].(flag := Ready)).Goto(i, WriteCount(msg, index))
    case WriteCount(msg, index) =>
      s.(messageCount := (s.messageCount + 1) % WORD).Goto(i, Returning(Wrote(index)))
    case ReadLoadIndex => s.Goto(i, ReadLoadFlag(s.readIndex))
    case ReadLoadFlag(index) =>
      if s.slots[s.At(index)].flag != Ready then s.Goto(i, Returning(NothingReady)) else s.Goto(i, ReadClaim(index))
    case ReadClaim(index) =>
      var slot := s.slots[s.At(index)];
      if slot.flag != Ready then s.Goto(i, ReadLoadIndex)
      else s.Put(s.At(index), slot.(flag := Reading)).Own(s.At(index), i).Goto(i, ReadAdvance(index, slot))
    case ReadAdvance(index, was) =>
      if s.readIndex != index then s.Goto(i, ReadRelease(index, was))
      else s.(readIndex := index + 1, readers := s.readers + [i]).Goto(i, ReadGetLen(index))
    case ReadRelease(index, was) =>
      s.Put(s.At(index), s.slots[s.At(index)].(flag := Ready)).Goto(i, ReadLoadIndex)
    case ReadGetLen(index) => s.Goto(i, ReadCopy(index, s.slots[s.At(index)].len))
    case ReadCopy(index, len) =>
      var bytes := s.slots[s.At(index)].bytes;
      s.Goto(i, ReadClear(index, bytes[..if len <= |bytes| then len else |bytes|]))
    case ReadClear(index, msg) =>
      s.Put(s.At(index), s.slots[s.At(index)].(flag := Empty)).Goto(i, ReadCount(index, msg))
    case ReadCount(index, msg) =>
      s.(messageCount := (s.messageCount + WORD - 1) % WORD).Goto(i, Returning(Got(index, msg)))
    case Returning(answer) => (
      match answer
      case Got(index, msg) => s.(delivered := s.delivered[index := msg]).Goto(i, Idle)
      case _ => s.Goto(i, Idle))
  }

  datatype Action<B> = Call(tid: nat, call: Call<B>) | Run(tid: nat)

  function Apply<B>(s: State<B>, a: Action<B>): State<B> {
    if !s.Running(a.tid) then s
    else
      match a
      case Call(i, call) => Invoke(s, i, call)
      case Run(i) => Step(s, i)
  }

  function Exec<B>(n: nat, room: nat, zero: B, m: nat, schedule: seq<Action<B>>): State<B>
    requires n > 0
  {
    if schedule == [] then Init(n, room, zero, m)
    else Apply(Exec(n, room, zero, m, schedule[..|schedule| - 1]), schedule[|schedule| - 1])
  }

  // ---- The invariant ----------------------------------------------------

  // The slot holds exactly this message.
  ghost predicate Holds<B>(slot: Slot<B>, msg: seq<B>) {
    slot.len == |msg| <= |slot.bytes| && slot.bytes[..|msg|] == msg
  }

  // The slot a thread has claimed.
  function Claimed<B>(s: State<B>, pc: PC<B>): Option<nat>
    requires |s.slots| > 0
  {
    if pc.WriteAdvance? || pc.WriteRelease? || pc.WritePutLen? || pc.WriteCopy? || pc.WriteReady?
      || pc.ReadAdvance? || pc.ReadRelease? || pc.ReadGetLen? || pc.ReadCopy? || pc.ReadClear?
    then Some(s.At(pc.index)) else None
  }

  // The index a reader has won and not yet handed out.
  function Won<B>(pc: PC<B>): Option<nat> {
    match pc
    case ReadGetLen(index) => Some(index)
    case ReadCopy(index, _) => Some(index)
    case ReadClear(index, _) => Some(index)
    case ReadCount(index, _) => Some(index)
    case Returning(answer) => if answer.Got? then Some(answer.index) else None
    case _ => None
  }

  ghost predicate Assigned<B>(s: State<B>, index: int)
    requires |s.slots| > 0
  {
    s.slots[s.At(index)].last == index
  }

  ghost predicate SlotOK<B>(s: State<B>, k: nat)
    requires k < |s.slots| && |s.owners| == |s.slots|
  {
    var slot := s.slots[k];
    && |slot.bytes| == |s.slots[0].bytes| && slot.last < |s.written| && s.At(slot.last) == k
    && match slot.flag
       case Empty => slot.last < s.readIndex
       case Ready => s.readIndex <= slot.last && Holds(slot, s.written[slot.last])
       case _ => s.owners[k] < |s.threads| && Claimed(s, s.threads[s.owners[k]]) == Some(k)
  }

  ghost predicate WriterAt<B>(s: State<B>, msg: seq<B>, index: nat)
    requires |s.slots| > 0
  {
    var slot := s.slots[s.At(index)];
    && slot.flag == Writing && slot.last == index && s.readIndex <= index < |s.written| && s.written[index] == msg
  }

  ghost predicate ReaderAt<B>(s: State<B>, index: nat)
    requires |s.slots| > 0
  {
    var slot := s.slots[s.At(index)];
    slot.flag == Reading && slot.last == index < s.readIndex <= |s.written| && Holds(slot, s.written[index])
  }

  ghost predicate ThreadOK<B>(s: State<B>, i: nat)
    requires i < |s.threads| && |s.slots| > 0
  {
    var room := |s.slots[0].bytes|;
    match s.threads[i]
    case WriteLoadIndex(msg) => |msg| <= room
    case WriteLoadFlag(msg, index) => |msg| <= room
    case WriteClaim(msg, index) => |msg| <= room
    case WriteAdvance(msg, index, was) =>
      |msg| <= room && was.flag == Empty && was.last < s.readIndex && s.slots[s.At(index)] == was.(flag := Writing)
    case WriteRelease(msg, index, was) =>
      |msg| <= room && was.flag == Empty && was.last < s.readIndex && s.slots[s.At(index)] == was.(flag := Writing)
    case WritePutLen(msg, index) => |msg| <= room && WriterAt(s, msg, index)
    case WriteCopy(msg, index) => |msg| <= room && WriterAt(s, msg, index) && s.slots[s.At(index)].len == |msg|
    case WriteReady(msg, index) => |msg| <= room && WriterAt(s, msg, index) && Holds(s.slots[s.At(index)], msg)
    case WriteCount(msg, index) => index < |s.written| && s.written[index] == msg
    case ReadAdvance(index, was) =>
      && was.flag == Ready && s.readIndex <= was.last < |s.written| && Holds(was, s.written[was.last])
      && s.slots[s.At(index)] == was.(flag := Reading)
    case ReadRelease(index, was) =>
      && was.flag == Ready && s.readIndex <= was.last < |s.written| && Holds(was, s.written[was.last])
      && s.slots[s.At(index)] == was.(flag := Reading)
    case ReadGetLen(index) => ReaderAt(s, index)
    case ReadCopy(index, len) => ReaderAt(s, index) && len == s.slots[s.At(index)].len
    case ReadClear(index, msg) => ReaderAt(s, index) && msg == s.written[index]
    case ReadCount(index, msg) => index < s.readIndex <= |s.written| && msg == s.written[index]
    case Returning(answer) => (
      match answer
      case Got(index, msg) => index < s.readIndex <= |s.written| && msg == s.written[index]
      case Wrote(index) => index < |s.written|
      case _ => true)
    case _ => true
  }

  ghost predicate Apart<B>(s: State<B>, i: nat, j: nat)
    requires i < |s.threads| && j < |s.threads| && |s.slots| > 0
  {
    i != j ==>
      && (Claimed(s, s.threads[i]).Some? ==> Claimed(s, s.threads[i]) != Claimed(s, s.threads[j]))
      && (Won(s.threads[i]).Some? ==> Won(s.threads[i]) != Won(s.threads[j]))
  }

  ghost predicate Undelivered<B>(s: State<B>, i: nat)
    requires i < |s.threads|
  {
    Won(s.threads[i]).Some? ==> Won(s.threads[i]).value !in s.delivered
  }

  // An index that readers have passed was handed out, or is on its way through one reader.
  ghost predicate Delivered<B>(s: State<B>, index: nat)
    requires index < |s.readers|
  {
    index !in s.delivered ==> s.readers[index] < |s.threads| && Won(s.threads[s.readers[index]]) == Some(index)
  }

  ghost predicate Sized<B>(s: State<B>) {
    && 0 < |s.slots| == |s.owners| && |s.written| == s.writeIndex && |s.readers| == s.readIndex
    && s.readIndex <= s.writeIndex <= s.readIndex + |s.slots|
  }

  ghost predicate Inv<B>(s: State<B>) {
    && Sized(s)
    && (forall index: int {:trigger Assigned(s, index)} :: s.writeIndex - |s.slots| <= index < s.writeIndex ==>
         Assigned(s, index))
    && (forall k {:trigger SlotOK(s, k)} :: 0 <= k < |s.slots| ==> SlotOK(s, k))
    && (forall i {:trigger ThreadOK(s, i)} :: 0 <= i < |s.threads| ==> ThreadOK(s, i))
    && (forall i, j {:trigger Apart(s, i, j)} :: 0 <= i < |s.threads| && 0 <= j < |s.threads| ==> Apart(s, i, j))
    && (forall i {:trigger Undelivered(s, i)} :: 0 <= i < |s.threads| ==> Undelivered(s, i))
    && (forall index {:trigger Delivered(s, index)} :: 0 <= index < |s.readers| ==> Delivered(s, index))
    && (forall index {:trigger s.delivered[index]} :: index in s.delivered ==>
          index < s.readIndex && s.delivered[index] == s.written[index])
  }

  // ---- Steps that win no index ------------------------------------------

  // Thread i moves from s to s'; at most slot k changes, and it stays assigned to the same index.
  ghost predicate OneSlot<B>(s: State<B>, s': State<B>, i: nat, k: nat) {
    && i < |s.threads| == |s'.threads| && k < |s.slots| == |s'.slots| == |s.owners| == |s'.owners|
    && s'.written == s.written && s'.readers == s.readers && s'.delivered == s.delivered
    && s'.writeIndex == s.writeIndex && s'.readIndex == s.readIndex
    && (forall j {:trigger s'.threads[j]} :: 0 <= j < |s.threads| && j != i ==> s'.threads[j] == s.threads[j])
    && (forall l {:trigger s'.slots[l]} :: 0 <= l < |s.slots| && l != k ==> s'.slots[l] == s.slots[l])
    && (forall l {:trigger s'.owners[l]} :: 0 <= l < |s.slots| && l != k ==> s'.owners[l] == s.owners[l])
    && s'.slots[k].last == s.slots[k].last && |s'.slots[k].bytes| == |s.slots[k].bytes|
  }

  lemma OthersKept<B>(s: State<B>, s': State<B>, i: nat, k: nat, j: nat)
    requires OneSlot(s, s', i, k) && j < |s.threads| && j != i && ThreadOK(s, j)
    requires Claimed(s, s.threads[j]) == Some(k) ==> s'.slots[k] == s.slots[k]
    requires SlotOK(s, 0) && SlotOK(s, k)
    ensures ThreadOK(s', j)
  {
  }

  ghost predicate Without<B>(s: State<B>, j: nat, k: nat)
    requires j < |s.threads| && |s.slots| > 0
  {
    Claimed(s, s.threads[j]) != Some(k)
  }

  // Nobody but thread i has claimed slot k.
  ghost predicate Alone<B>(s: State<B>, i: nat, k: nat)
    requires |s.slots| > 0
  {
    forall j {:trigger Without(s, j, k)} :: 0 <= j < |s.threads| && j != i ==> Without(s, j, k)
  }

  lemma OneSlotKeeps<B>(s: State<B>, s': State<B>, i: nat, k: nat)
    requires Inv(s) && OneSlot(s, s', i, k) && ThreadOK(s', i) && SlotOK(s', k)
    requires (s'.slots[k] == s.slots[k] && s'.owners[k] == s.owners[k]) || Alone(s, i, k)
    requires Claimed(s', s'.threads[i]) == Claimed(s, s.threads[i])
      || (Claimed(s', s'.threads[i]) == None && Claimed(s, s.threads[i]) == Some(k))
      || (Claimed(s', s'.threads[i]) == Some(k) && Claimed(s, s.threads[i]) == None
           && s.slots[k].flag != s'.slots[k].flag)
    requires Won(s'.threads[i]) == Won(s.threads[i])
    ensures Inv(s')
  {
    forall index: int {:trigger Assigned(s', index)} | s'.writeIndex - |s'.slots| <= index < s'.writeIndex
      ensures Assigned(s', index)
    {
      assert Assigned(s, index);
    }
    forall l {:trigger SlotOK(s', l)} | 0 <= l < |s'.slots|
      ensures SlotOK(s', l)
    {
      assert SlotOK(s, l) && SlotOK(s, 0);
    }
    forall j {:trigger ThreadOK(s', j)} | 0 <= j < |s'.threads| ensures ThreadOK(s', j) {
      if j != i {
        assert ThreadOK(s, j) && Apart(s, i, j) && SlotOK(s, 0) && SlotOK(s, k);
        assert Alone(s, i, k) ==> Without(s, j, k);
        OthersKept(s, s', i, k, j);
      }
    }
    forall j, l {:trigger Apart(s', j, l)} | 0 <= j < |s'.threads| && 0 <= l < |s'.threads| ensures Apart(s', j, l) {
      assert Apart(s, j, l);
      assert Alone(s, i, k) && j != i ==> Without(s, j, k);
      assert Alone(s, i, k) && l != i ==> Without(s, l, k);
    }
    forall j {:trigger Undelivered(s', j)} | 0 <= j < |s'.threads|
      ensures Undelivered(s', j)
    {
      assert Undelivered(s, j);
    }
    forall index {:trigger Delivered(s', index)} | 0 <= index < |s'.readers|
      ensures Delivered(s', index)
    {
      assert Delivered(s, index);
    }
  }

  // Nobody else holds a slot that this thread has claimed, or that nobody has.
  lemma HolderAlone<B>(s: State<B>, i: nat, k: nat)
    requires Inv(s) && i < |s.threads| && k < |s.slots|
    requires Claimed(s, s.threads[i]) == Some(k) || s.slots[k].flag == Empty || s.slots[k].flag == Ready
    ensures Alone(s, i, k)
    ensures Claimed(s, s.threads[i]) == Some(k) && s.slots[k].flag != Empty && s.slots[k].flag != Ready ==>
      s.owners[k] == i
  {
    forall j {:trigger Without(s, j, k)} | 0 <= j < |s.threads| && j != i ensures Without(s, j, k) {
      assert Apart(s, i, j) && ThreadOK(s, j);
    }
    assert SlotOK(s, k);
    assert s.owners[k] < |s.threads| && s.owners[k] != i ==> Without(s, s.owners[k], k);
  }

  lemma WriteLocalStep<B>(s: State<B>, i: nat)
    requires Inv(s) && s.Running(i) && (s.threads[i].WriteCheckSize? || s.threads[i].WriteLoadIndex?)
    ensures Inv(Step(s, i))
  {
    assert ThreadOK(s, i) && SlotOK(s, 0);
    OneSlotKeeps(s, Step(s, i), i, 0);
  }

  lemma WriteFlagStep<B>(s: State<B>, i: nat)
    requires Inv(s) && s.Running(i) && (s.threads[i].WriteLoadFlag? || s.threads[i].WriteCount?)
    ensures Inv(Step(s, i))
  {
    assert ThreadOK(s, i) && SlotOK(s, 0);
    OneSlotKeeps(s, Step(s, i), i, 0);
  }

  lemma ReadLocalStep<B>(s: State<B>, i: nat)
    requires Inv(s) && s.Running(i) && (s.threads[i].ReadLoadIndex? || s.threads[i].ReadCount?)
    ensures Inv(Step(s, i))
  {
    assert ThreadOK(s, i) && SlotOK(s, 0);
    OneSlotKeeps(s, Step(s, i), i, 0);
  }

  lemma ReadFlagStep<B>(s: State<B>, i: nat)
    requires Inv(s) && s.Running(i) && s.threads[i].ReadLoadFlag?
    ensures Inv(Step(s, i))
  {
    assert ThreadOK(s, i) && SlotOK(s, 0);
    OneSlotKeeps(s, Step(s, i), i, 0);
  }

  lemma ReadHeldStep<B>(s: State<B>, i: nat)
    requires Inv(s) && s.Running(i) && (s.threads[i].ReadGetLen? || s.threads[i].ReadCopy?)
    ensures Inv(Step(s, i))
  {
    assert ThreadOK(s, i) && SlotOK(s, 0);
    OneSlotKeeps(s, Step(s, i), i, 0);
  }

  lemma WriteClaimStep<B>(s: State<B>, i: nat)
    requires Inv(s) && s.Running(i) && s.threads[i].WriteClaim?
    ensures Inv(Step(s, i))
  {
    assert ThreadOK(s, i);
    var k := s.At(s.threads[i].index);
    assert SlotOK(s, k) && SlotOK(s, 0);
    if s.slots[k].flag == Empty { HolderAlone(s, i, k); }
    OneSlotKeeps(s, Step(s, i), i, k);
  }

  lemma ReadClaimStep<B>(s: State<B>, i: nat)
    requires Inv(s) && s.Running(i) && s.threads[i].ReadClaim?
    ensures Inv(Step(s, i))
  {
    assert ThreadOK(s, i);
    var k := s.At(s.threads[i].index);
    assert SlotOK(s, k) && SlotOK(s, 0);
    if s.slots[k].flag == Ready { HolderAlone(s, i, k); }
    OneSlotKeeps(s, Step(s, i), i, k);
  }

  lemma WriteDataStep<B>(s: State<B>, i: nat)
    requires Inv(s) && s.Running(i) && (s.threads[i].WritePutLen? || s.threads[i].WriteCopy?)
    ensures Inv(Step(s, i))
  {
    assert ThreadOK(s, i);
    var k := s.At(s.threads[i].index);
    assert SlotOK(s, k) && SlotOK(s, 0);
    HolderAlone(s, i, k);
    OneSlotKeeps(s, Step(s, i), i, k);
  }

  lemma WriteReleaseStep<B>(s: State<B>, i: nat)
    requires Inv(s) && s.Running(i) && s.threads[i].WriteRelease?
    ensures Inv(Step(s, i))
  {
    assert ThreadOK(s, i);
    var k := s.At(s.threads[i].index);
    assert SlotOK(s, k) && SlotOK(s, 0);
    HolderAlone(s, i, k);
    OneSlotKeeps(s, Step(s, i), i, k);
  }

  lemma WriteReadyStep<B>(s: State<B>, i: nat)
    requires Inv(s) && s.Running(i) && s.threads[i].WriteReady?
    ensures Inv(Step(s, i))
  {
    assert ThreadOK(s, i);
    var k := s.At(s.threads[i].index);
    assert SlotOK(s, k) && SlotOK(s, 0);
    HolderAlone(s, i, k);
    OneSlotKeeps(s, Step(s, i), i, k);
  }

  lemma ReadReleaseStep<B>(s: State<B>, i: nat)
    requires Inv(s) && s.Running(i) && s.threads[i].ReadRelease?
    ensures Inv(Step(s, i))
  {
    assert ThreadOK(s, i);
    var k := s.At(s.threads[i].index);
    assert SlotOK(s, k) && SlotOK(s, 0);
    HolderAlone(s, i, k);
    OneSlotKeeps(s, Step(s, i), i, k);
  }

  lemma ReadClearStep<B>(s: State<B>, i: nat)
    requires Inv(s) && s.Running(i) && s.threads[i].ReadClear?
    ensures Inv(Step(s, i))
  {
    assert ThreadOK(s, i);
    var k := s.At(s.threads[i].index);
    assert SlotOK(s, k) && SlotOK(s, 0);
    HolderAlone(s, i, k);
    OneSlotKeeps(s, Step(s, i), i, k);
  }


  // ---- Steps that win an index ------------------------------------------

  lemma ModShift(a: int, n: nat)
    requires n > 0
    ensures (a - n) % n == a % n
  {
    var x := a - n;
    assert (x / n + 1) * n == x / n * n + n;
    QuotientUnique(x / n + 1, x % n, a / n, a % n, n);
  }

  // Two indices less than a lap apart use different slots.
  lemma ModDiffers(a: int, b: int, n: nat)
    requires n > 0 && a < b < a + n
    ensures a % n != b % n
  {
    var k := b / n - a / n;
    assert k * n == b / n * n - a / n * n;
    if k >= 1 { LapsDiffer(k, n); }
    if k <= -1 { LapsDiffer(-k, n); }
  }

  // No index in the window but the oldest uses the slot of the next one.
  lemma NextSlot<B>(s: State<B>, index: int)
    requires Inv(s) && s.writeIndex - |s.slots| <= index < s.writeIndex
    ensures s.At(index) == s.At(s.writeIndex) <==> index == s.writeIndex - |s.slots|
  {
    if index == s.writeIndex - |s.slots| {
      ModShift(s.writeIndex, |s.slots|);
    } else {
      ModDiffers(index, s.writeIndex, |s.slots|);
    }
  }

  // The index that a thread is about to win as writer is free: its slot was emptied a lap ago.
  lemma WriteAdvanceRoom<B>(s: State<B>, i: nat)
    requires Inv(s) && s.Running(i) && s.threads[i].WriteAdvance? && s.threads[i].index == s.writeIndex
    ensures s.writeIndex < s.readIndex + |s.slots|
    ensures s.slots[s.At(s.writeIndex)].last == s.writeIndex - |s.slots|
  {
    assert ThreadOK(s, i);
    NextSlot(s, s.writeIndex - |s.slots|);
    assert Assigned(s, s.writeIndex - |s.slots|);
  }

  lemma WriteAdvanceStep<B>(s: State<B>, i: nat)
    requires Inv(s) && s.Running(i) && s.threads[i].WriteAdvance? && s.threads[i].index == s.writeIndex
    ensures Inv(Step(s, i))
  {
    var s' := Step(s, i);
    var k := s.At(s.writeIndex);
    assert ThreadOK(s, i) && SlotOK(s, 0) && SlotOK(s, k);
    WriteAdvanceRoom(s, i);
    HolderAlone(s, i, k);
    forall index: int {:trigger Assigned(s', index)} | s'.writeIndex - |s'.slots| <= index < s'.writeIndex
      ensures Assigned(s', index)
    {
      if index < s.writeIndex { assert Assigned(s, index); NextSlot(s, index); }
    }
    forall l {:trigger SlotOK(s', l)} | 0 <= l < |s'.slots| ensures SlotOK(s', l) { assert SlotOK(s, l); }
    forall j {:trigger ThreadOK(s', j)} | 0 <= j < |s'.threads| ensures ThreadOK(s', j) {
      if j != i {
        assert ThreadOK(s, j) && Without(s, j, k);
        WrittenGrows(s, s', i, k, j);
      }
    }
    forall j, l {:trigger Apart(s', j, l)} | 0 <= j < |s'.threads| && 0 <= l < |s'.threads|
      ensures Apart(s', j, l)
    {
      assert Apart(s, j, l);
    }
    forall j {:trigger Undelivered(s', j)} | 0 <= j < |s'.threads|
      ensures Undelivered(s', j)
    {
      assert Undelivered(s, j);
    }
    forall index {:trigger Delivered(s', index)} | 0 <= index < |s'.readers|
      ensures Delivered(s', index)
    {
      assert Delivered(s, index);
    }
  }

  lemma WrittenGrows<B>(s: State<B>, s': State<B>, i: nat, k: nat, j: nat)
    requires Sized(s) && j < |s.threads| && j != i && ThreadOK(s, j) && Without(s, j, k)
    requires |s'.threads| == |s.threads| && s'.threads[j] == s.threads[j]
    requires |s'.slots| == |s.slots| && forall l {:trigger s'.slots[l]} :: 0 <= l < |s.slots| && l != k ==>
      s'.slots[l] == s.slots[l]
    requires |s'.slots[0].bytes| == |s.slots[0].bytes|
    requires s.written <= s'.written && s'.readIndex == s.readIndex
    ensures ThreadOK(s', j)
  {
  }

  // The slot claimed for the index that a reader is about to win holds that index's message.
  lemma ReadAdvanceOwn<B>(s: State<B>, i: nat)
    requires Inv(s) && s.Running(i) && s.threads[i].ReadAdvance? && s.threads[i].index == s.readIndex
    ensures s.readIndex < s.writeIndex && s.slots[s.At(s.readIndex)].last == s.readIndex
  {
    assert ThreadOK(s, i);
    var last := s.threads[i].was.last;
    assert SlotOK(s, s.At(s.readIndex));
    if last != s.readIndex { ModDiffers(s.readIndex, last, |s.slots|); }
  }

  lemma ReadGrows<B>(s: State<B>, s': State<B>, i: nat, k: nat, j: nat)
    requires Sized(s) && j < |s.threads| && j != i && ThreadOK(s, j) && Without(s, j, k)
    requires s' == s.(readIndex := s.readIndex + 1, readers := s'.readers, threads := s'.threads)
    requires |s'.threads| == |s.threads| && s'.threads[j] == s.threads[j]
    requires k == s.At(s.readIndex) && s.slots[k].flag == Reading && s.readIndex < s.writeIndex
    requires Claimed(s, s.threads[j]).Some? ==> SlotOK(s, Claimed(s, s.threads[j]).value)
    ensures ThreadOK(s', j)
  {
  }

  lemma ReadOthers<B>(s: State<B>, s': State<B>, i: nat, k: nat)
    requires Inv(s) && i < |s.threads| == |s'.threads| && k < |s.slots| && Alone(s, i, k)
    requires s' == s.(readIndex := s.readIndex + 1, readers := s'.readers, threads := s'.threads)
    requires forall j {:trigger s'.threads[j]} :: 0 <= j < |s.threads| && j != i ==> s'.threads[j] == s.threads[j]
    requires k == s.At(s.readIndex) && s.slots[k].flag == Reading && s.readIndex < s.writeIndex
    ensures forall j {:trigger ThreadOK(s', j)} :: 0 <= j < |s'.threads| && j != i ==> ThreadOK(s', j)
  {
    forall j {:trigger ThreadOK(s', j)} | 0 <= j < |s'.threads| && j != i ensures ThreadOK(s', j) {
      assert ThreadOK(s, j) && Without(s, j, k);
      assert Claimed(s, s.threads[j]).Some? ==> SlotOK(s, Claimed(s, s.threads[j]).value);
      ReadGrows(s, s', i, k, j);
    }
  }

  // Reader i has won the read index, whose slot it holds.
  ghost predicate ReadWon<B>(s: State<B>, s': State<B>, i: nat) {
    && s.Running(i) && s.threads[i].ReadAdvance? && s.threads[i].index == s.readIndex && s' == Step(s, i)
    && s.readIndex < s.writeIndex && s.slots[s.At(s.readIndex)].last == s.readIndex
    && s.slots[s.At(s.readIndex)].flag == Reading
  }

  lemma ReadSlot<B>(s: State<B>, s': State<B>, i: nat, l: nat)
    requires ReadWon(s, s', i) && Sized(s) && l < |s.slots| && SlotOK(s, l)
    ensures SlotOK(s', l)
  {
  }

  lemma ReadApart<B>(s: State<B>, s': State<B>, i: nat, j: nat, l: nat)
    requires ReadWon(s, s', i) && Sized(s) && j < |s.threads| && l < |s.threads|
    requires ThreadOK(s, j) && ThreadOK(s, l) && Apart(s, j, l)
    ensures Apart(s', j, l)
  {
  }

  lemma ReadDelivered<B>(s: State<B>, s': State<B>, i: nat, index: nat)
    requires ReadWon(s, s', i) && Sized(s) && index < |s'.readers| && (index < |s.readers| ==> Delivered(s, index))
    ensures Delivered(s', index)
  {
  }

  lemma ReadAdvanceStep<B>(s: State<B>, i: nat)
    requires Inv(s) && s.Running(i) && s.threads[i].ReadAdvance? && s.threads[i].index == s.readIndex
    ensures Inv(Step(s, i))
  {
    var s' := Step(s, i);
    var k := s.At(s.readIndex);
    assert ThreadOK(s, i) && SlotOK(s, 0) && SlotOK(s, k);
    ReadAdvanceOwn(s, i);
    HolderAlone(s, i, k);
    ReadOthers(s, s', i, k);
    forall index: int {:trigger Assigned(s', index)} | s'.writeIndex - |s'.slots| <= index < s'.writeIndex
      ensures Assigned(s', index)
    {
      assert Assigned(s, index);
    }
    forall l {:trigger SlotOK(s', l)} | 0 <= l < |s'.slots| ensures SlotOK(s', l) { ReadSlot(s, s', i, l); }
    forall j, l {:trigger Apart(s', j, l)} | 0 <= j < |s'.threads| && 0 <= l < |s'.threads| ensures Apart(s', j, l) {
      assert Apart(s, j, l) && ThreadOK(s, j) && ThreadOK(s, l);
      ReadApart(s, s', i, j, l);
    }
    forall j {:trigger Undelivered(s', j)} | 0 <= j < |s'.threads|
      ensures Undelivered(s', j)
    {
      assert Undelivered(s, j);
    }
    forall index {:trigger Delivered(s', index)} | 0 <= index < |s'.readers| ensures Delivered(s', index) {
      assert index < |s.readers| ==> Delivered(s, index);
      ReadDelivered(s, s', i, index);
    }
  }

  lemma SameRing<B>(s: State<B>, s': State<B>, j: nat)
    requires j < |s.threads| == |s'.threads| && s'.threads[j] == s.threads[j] && |s.slots| > 0 && ThreadOK(s, j)
    requires s'.slots == s.slots && s'.written == s.written && s'.readIndex == s.readIndex
    ensures ThreadOK(s', j)
  {
  }

  lemma ReturnDelivered<B>(s: State<B>, i: nat, index: nat)
    requires s.Running(i) && s.threads[i].Returning? && index < |s.readers| && Delivered(s, index)
    ensures Delivered(Step(s, i), index)
  {
  }

  lemma ReturnUndelivered<B>(s: State<B>, i: nat, j: nat)
    requires s.Running(i) && s.threads[i].Returning? && j < |s.threads| && Undelivered(s, j) && Apart(s, i, j)
    ensures Undelivered(Step(s, i), j)
  {
  }

  lemma ReturnApart<B>(s: State<B>, i: nat, j: nat, l: nat)
    requires s.Running(i) && s.threads[i].Returning? && j < |s.threads| && l < |s.threads| && Apart(s, j, l)
    ensures Apart(Step(s, i), j, l)
  {
  }

  lemma ReturnStep<B>(s: State<B>, i: nat)
    requires Inv(s) && s.Running(i) && s.threads[i].Returning?
    ensures Inv(Step(s, i))
  {
    var s' := Step(s, i);
    assert ThreadOK(s, i) && Undelivered(s, i);
    forall index: int {:trigger Assigned(s', index)} | s'.writeIndex - |s'.slots| <= index < s'.writeIndex
      ensures Assigned(s', index)
    {
      assert Assigned(s, index);
    }
    forall l {:trigger SlotOK(s', l)} | 0 <= l < |s'.slots| ensures SlotOK(s', l) { assert SlotOK(s, l); }
    forall j {:trigger ThreadOK(s', j)} | 0 <= j < |s'.threads| ensures ThreadOK(s', j) {
      assert ThreadOK(s, j);
      if j != i { SameRing(s, s', j); }
    }
    forall j, l {:trigger Apart(s', j, l)} | 0 <= j < |s'.threads| && 0 <= l < |s'.threads| ensures Apart(s', j, l) {
      assert Apart(s, j, l);
      ReturnApart(s, i, j, l);
    }
    forall j {:trigger Undelivered(s', j)} | 0 <= j < |s'.threads| ensures Undelivered(s', j) {
      assert Undelivered(s, j) && Apart(s, i, j);
      ReturnUndelivered(s, i, j);
    }
    forall index {:trigger Delivered(s', index)} | 0 <= index < |s'.readers| ensures Delivered(s', index) {
      assert Delivered(s, index);
      ReturnDelivered(s, i, index);
    }
  }

  lemma StepKeeps<B>(s: State<B>, i: nat)
    requires Inv(s) && s.Running(i)
    ensures Inv(Step(s, i))
  {
    match s.threads[i]
    case Idle =>
    case WriteCheckSize(_) => WriteLocalStep(s, i);
    case WriteLoadIndex(_) => WriteLocalStep(s, i);
    case WriteLoadFlag(_, _) => WriteFlagStep(s, i);
    case WriteClaim(_, _) => WriteClaimStep(s, i);
    case WriteAdvance(_, index, _) => if s.writeIndex == index { WriteAdvanceStep(s, i); } else { AdvanceLost(s, i); }
    case WriteRelease(_, _, _) => WriteReleaseStep(s, i);
    case WritePutLen(_, _) => WriteDataStep(s, i);
    case WriteCopy(_, _) => WriteDataStep(s, i);
    case WriteReady(_, _) => WriteReadyStep(s, i);
    case WriteCount(_, _) => WriteFlagStep(s, i);
    case ReadLoadIndex => ReadLocalStep(s, i);
    case ReadLoadFlag(_) => ReadFlagStep(s, i);
    case ReadClaim(_) => ReadClaimStep(s, i);
    case ReadAdvance(index, _) => if s.readIndex == index { ReadAdvanceStep(s, i); } else { AdvanceLost(s, i); }
    case ReadRelease(_, _) => ReadReleaseStep(s, i);
    case ReadGetLen(_) => ReadHeldStep(s, i);
    case ReadCopy(_, _) => ReadHeldStep(s, i);
    case ReadClear(_, _) => ReadClearStep(s, i);
    case ReadCount(_, _) => ReadLocalStep(s, i);
    case Returning(_) => ReturnStep(s, i);
  }

  lemma AdvanceLost<B>(s: State<B>, i: nat)
    requires Inv(s) && s.Running(i)
    requires (s.threads[i].WriteAdvance? && s.threads[i].index != s.writeIndex)
      || (s.threads[i].ReadAdvance? && s.threads[i].index != s.readIndex)
    ensures Inv(Step(s, i))
  {
    assert ThreadOK(s, i);
    var k := s.At(s.threads[i].index);
    assert SlotOK(s, k) && SlotOK(s, 0);
    HolderAlone(s, i, k);
    OneSlotKeeps(s, Step(s, i), i, k);
  }

  lemma InvokeKeeps<B>(s: State<B>, i: nat, call: Call<B>)
    requires Inv(s) && s.Running(i)
    ensures Inv(Invoke(s, i, call))
  {
    assert SlotOK(s, 0);
    if s.threads[i] == Idle { OneSlotKeeps(s, Invoke(s, i, call), i, 0); }
  }

  // ---- Every run --------------------------------------------------------

  lemma FirstLap(k: nat, n: nat)
    requires k < n
    ensures (k - n) % n == k
  {
    ModShift(k, n);
  }

  lemma InitOK<B>(n: nat, room: nat, zero: B, m: nat)
    requires n > 0
    ensures Inv(Init(n, room, zero, m))
  {
    var s := Init(n, room, zero, m);
    forall index: int {:trigger Assigned(s, index)} | s.writeIndex - |s.slots| <= index < s.writeIndex
      ensures Assigned(s, index)
    {
      FirstLap(index + n, n);
    }
    forall k {:trigger SlotOK(s, k)} | 0 <= k < |s.slots| ensures SlotOK(s, k) { FirstLap(k, n); }
    forall i {:trigger ThreadOK(s, i)} | 0 <= i < |s.threads| ensures ThreadOK(s, i) {}
    forall i, j {:trigger Apart(s, i, j)} | 0 <= i < |s.threads| && 0 <= j < |s.threads| ensures Apart(s, i, j) {}
    forall i {:trigger Undelivered(s, i)} | 0 <= i < |s.threads| ensures Undelivered(s, i) {}
  }

  lemma ApplyKeeps<B>(s: State<B>, a: Action<B>)
    requires Inv(s)
    ensures Inv(Apply(s, a)) && |Apply(s, a).slots| == |s.slots|
  {
    if s.Running(a.tid) {
      match a
      case Call(i, call) => InvokeKeeps(s, i, call);
      case Run(i) => StepKeeps(s, i);
    }
  }

  /** In every state of every run the indices stay within one lap of each other, every message that
      won an index is the one handed out for it, and no index is handed out to two readers. */
  lemma {:induction false} RunsAreSafe<B>(n: nat, room: nat, zero: B, m: nat, schedule: seq<Action<B>>)
    requires n > 0
    ensures var s := Exec(n, room, zero, m, schedule);
      && Inv(s) && |s.slots| == n
      && s.readIndex <= s.writeIndex <= s.readIndex + n
      && (forall index <- s.delivered :: index < s.readIndex && s.delivered[index] == s.written[index])
  {
    if schedule == [] {
      InitOK(n, room, zero, m);
    } else {
      RunsAreSafe(n, room, zero, m, schedule[..|schedule| - 1]);
      ApplyKeeps(Exec(n, room, zero, m, schedule[..|schedule| - 1]), schedule[|schedule| - 1]);
    }
  }

  // What writers have put in and readers have not taken.
  ghost function Queue<B>(s: State<B>): seq<seq<B>>
    requires Sized(s)
  {
    s.written[s.readIndex..]
  }

  /** Each step leaves the queue of messages alone, or appends one to a queue with room, or takes
      the first; a reader's answer is the message of the index it won. */
  lemma StepRefinesQueue<B>(s: State<B>, i: nat)
    requires Inv(s) && s.Running(i)
    ensures Inv(Step(s, i))
    ensures var q, q', pc := Queue(s), Queue(Step(s, i)), s.threads[i];
      if pc.WriteAdvance? && pc.index == s.writeIndex then |q| < |s.slots| && q' == q + [pc.msg]
      else if pc.ReadAdvance? && pc.index == s.readIndex then q != [] && q' == q[1..]
      else q' == q
    ensures s.threads[i].Returning? && s.threads[i].answer.Got? ==>
      var index := s.threads[i].answer.index;
      && index !in s.delivered && index < |s.written| && s.threads[i].answer.msg == s.written[index]
  {
    StepKeeps(s, i);
    assert ThreadOK(s, i) && Undelivered(s, i);
    var pc := s.threads[i];
    if pc.WriteAdvance? && pc.index == s.writeIndex { WriteAdvanceRoom(s, i); }
    if pc.ReadAdvance? && pc.index == s.readIndex { ReadAdvanceOwn(s, i); }
  }

  /** A claim that loses the index race gives the slot back exactly as it was before the claim. */
  lemma LostClaimsDisturbNothing<B>(s: State<B>, i: nat)
    requires Inv(s) && s.Running(i) && (s.threads[i].WriteRelease? || s.threads[i].ReadRelease?)
    ensures var pc, s' := s.threads[i], Step(s, i);
      s'.slots[s.At(pc.index)] == pc.was && s'.written == s.written
      && s'.writeIndex == s.writeIndex && s'.readIndex == s.readIndex
  {
    assert ThreadOK(s, i);
  }

  /** Once every call has returned, each message below the read index has been handed out. */
  lemma NothingIsLost<B>(s: State<B>)
    requires Inv(s) && forall i :: 0 <= i < |s.threads| ==> s.threads[i] == Idle
    ensures forall index :: 0 <= index < s.readIndex ==> index in s.delivered && s.delivered[index] == s.written[index]
  {
    forall index | 0 <= index < s.readIndex ensures index in s.delivered {
      assert Delivered(s, index);
    }
  }

  // ---- When a call is refused -------------------------------------------

  // Some call has claimed slot k and not given it up.
  ghost predicate Held<B>(s: State<B>, k: nat)
    requires |s.slots| > 0
  {
    exists j :: 0 <= j < |s.threads| && Claimed(s, s.threads[j]) == Some(k)
  }

  lemma HeldMeans<B>(s: State<B>, k: nat)
    requires Inv(s) && k < |s.slots|
    ensures Held(s, k) <==> s.slots[k].flag == Writing || s.slots[k].flag == Reading
  {
    assert SlotOK(s, k);
    forall j | 0 <= j < |s.threads| && Claimed(s, s.threads[j]) == Some(k)
      ensures s.slots[k].flag == Writing || s.slots[k].flag == Reading
    {
      assert ThreadOK(s, j);
    }
  }

  // The last lap before w uses every slot.
  lemma LastLap(w: nat, k: nat, n: nat) returns (index: int)
    requires k < n
    ensures w - n <= index < w && index % n == k
  {
    var back := w - 1 - k;
    index := w - 1 - back % n;
    assert index == back / n * n + k;
    QuotientUnique(index / n, index % n, back / n, k, n);
  }

  // In a full ring every slot holds an unread index, in an empty ring none does.
  lemma FullOrEmpty<B>(s: State<B>, k: nat)
    requires Inv(s) && k < |s.slots|
    ensures s.writeIndex == s.readIndex + |s.slots| ==> s.readIndex <= s.slots[k].last
    ensures s.writeIndex == s.readIndex ==> s.slots[k].last < s.readIndex
  {
    var index := LastLap(s.writeIndex, k, |s.slots|);
    assert Assigned(s, index) && SlotOK(s, k);
  }

  /** Write reports a full buffer exactly when the slot of the index it loaded holds an unread
      message or is claimed by a thread at that moment.  A full ring is always refused; and when the
      loaded index is still the write index, the report means that the ring is full or that some
      call holds the slot. */
  lemma FullMeans<B>(s: State<B>, i: nat)
    requires Inv(s) && s.Running(i) && s.threads[i].WriteLoadFlag?
    ensures var k, full := s.At(s.threads[i].index), s.writeIndex == s.readIndex + |s.slots|;
      && (Step(s, i).threads[i] == Returning(Full) <==> s.readIndex <= s.slots[k].last || Held(s, k))
      && (full ==> Step(s, i).threads[i] == Returning(Full))
      && (s.threads[i].index == s.writeIndex ==> (Step(s, i).threads[i] == Returning(Full) <==> full || Held(s, k)))
  {
    var k := s.At(s.threads[i].index);
    var oldest := s.writeIndex - |s.slots|;
    assert SlotOK(s, k);
    HeldMeans(s, k);
    FullOrEmpty(s, k);
    NextSlot(s, oldest);
    assert Assigned(s, oldest);
  }

  /** Read reports that nothing is ready exactly when the slot of the index it loaded holds no unread
      index or is claimed by a thread at that moment.  An empty ring is always refused; and when the
      loaded index is still the read index, the report means that the ring is empty or that some
      call holds the slot: the writer of the next message, or another reader. */
  lemma NothingReadyMeans<B>(s: State<B>, i: nat)
    requires Inv(s) && s.Running(i) && s.threads[i].ReadLoadFlag?
    ensures var k, empty := s.At(s.threads[i].index), s.readIndex == s.writeIndex;
      && (Step(s, i).threads[i] == Returning(NothingReady) <==> s.slots[k].last < s.readIndex || Held(s, k))
      && (empty ==> Step(s, i).threads[i] == Returning(NothingReady))
      && (s.threads[i].index == s.readIndex ==>
           (Step(s, i).threads[i] == Returning(NothingReady) <==> empty || Held(s, k)))
  {
    var k := s.At(s.threads[i].index);
    assert SlotOK(s, k);
    HeldMeans(s, k);
    FullOrEmpty(s, k);
    if s.readIndex < s.writeIndex { assert Assigned(s, s.readIndex); }
  }

  // ---- The message count ------------------------------------------------

  // A write that has won its index counts later; so does a read.
  function Due<B>(pc: PC<B>): int {
    if pc.WritePutLen? || pc.WriteCopy? || pc.WriteReady? || pc.WriteCount? then 1
    else if pc.ReadGetLen? || pc.ReadCopy? || pc.ReadClear? || pc.ReadCount? then -1
    else 0
  }

  function Dues<B>(threads: seq<PC<B>>): (dues: seq<int>)
    ensures |dues| == |threads|
  {
    seq(|threads|, k requires 0 <= k < |threads| => Due(threads[k]))
  }

  /** The message count is the number of unread messages, less writes and plus reads that have won
      an index and not counted it yet, in 64 bits. */
  ghost predicate Counted<B>(s: State<B>) {
    s.messageCount == (s.writeIndex - s.readIndex - Total(Dues(s.threads))) % WORD
  }

  lemma AddWraps(a: int, d: int, n: nat)
    requires n > 0
    ensures (a % n + d) % n == (a + d) % n
  {
    var x, y := a % n + d, a + d;
    assert a == a / n * n + a % n;
    assert y == a / n * n + x;
    assert (a / n + x / n) * n == a / n * n + x / n * n;
    QuotientUnique(a / n + x / n, x % n, y / n, y % n, n);
  }

  lemma SubtractWraps(a: int, n: nat)
    requires n > 0
    ensures (a % n + n - 1) % n == (a - 1) % n
  {
    AddWraps(a, -1, n);
    ModShift(a % n - 1 + n, n);
  }

  // What the owner of the step does to the count and to what is due.
  ghost predicate Even<B>(s: State<B>, s': State<B>, i: nat) {
    && i < |s.threads| == |s'.threads|
    && (forall j {:trigger s'.threads[j]} :: 0 <= j < |s.threads| && j != i ==> s'.threads[j] == s.threads[j])
    && var change := s'.writeIndex - s'.readIndex - (s.writeIndex - s.readIndex)
         - (Due(s'.threads[i]) - Due(s.threads[i]));
       || (s'.messageCount == s.messageCount && change == 0)
       || (s'.messageCount == (s.messageCount + 1) % WORD && change == 1)
       || (s'.messageCount == (s.messageCount + WORD - 1) % WORD && change == -1)
  }

  lemma WriteEven<B>(s: State<B>, i: nat)
    requires s.Running(i) && var pc := s.threads[i];
      || pc.WriteCheckSize? || pc.WriteLoadIndex? || pc.WriteLoadFlag? || pc.WriteClaim? || pc.WriteAdvance?
      || pc.WriteRelease? || pc.WritePutLen? || pc.WriteCopy? || pc.WriteReady? || pc.WriteCount?
    ensures Even(s, Step(s, i), i)
  {
  }

  lemma ReadEven<B>(s: State<B>, i: nat)
    requires s.Running(i) && var pc := s.threads[i];
      || pc.Idle? || pc.ReadLoadIndex? || pc.ReadLoadFlag? || pc.ReadClaim? || pc.ReadAdvance? || pc.ReadRelease?
      || pc.ReadGetLen? || pc.ReadCopy? || pc.ReadClear? || pc.ReadCount? || pc.Returning?
    ensures Even(s, Step(s, i), i)
  {
  }

  lemma EvenCounted<B>(s: State<B>, s': State<B>, i: nat)
    requires Counted(s) && Even(s, s', i)
    ensures Counted(s')
  {
    TotalUpdate(Dues(s.threads), Dues(s'.threads), i);
    var due := s.writeIndex - s.readIndex - Total(Dues(s.threads));
    AddWraps(due, 1, WORD);
    SubtractWraps(due, WORD);
  }

  /** Every step of every thread keeps the account. */
  lemma StepCounted<B>(s: State<B>, i: nat)
    requires s.Running(i) && Counted(s)
    ensures Counted(Step(s, i))
  {
    var pc := s.threads[i];
    if pc.Idle? || pc.ReadLoadIndex? || pc.ReadLoadFlag? || pc.ReadClaim? || pc.ReadAdvance? || pc.ReadRelease?
      || pc.ReadGetLen? || pc.ReadCopy? || pc.ReadClear? || pc.ReadCount? || pc.Returning? {
      ReadEven(s, i);
    } else {
      WriteEven(s, i);
    }
    EvenCounted(s, Step(s, i), i);
  }

  lemma InvokeCounted<B>(s: State<B>, i: nat, call: Call<B>)
    requires s.Running(i) && Counted(s)
    ensures Counted(Invoke(s, i, call))
  {
    EvenCounted(s, Invoke(s, i, call), i);
  }

  lemma InitCounted<B>(n: nat, room: nat, zero: B, m: nat)
    requires n > 0
    ensures Counted(Init(n, room, zero, m))
  {
    TotalZero(Dues(Init(n, room, zero, m).threads));
  }

  ghost predicate AllIdle<B>(s: State<B>) {
    forall i :: 0 <= i < |s.threads| ==> s.threads[i] == Idle
  }

  // With no call under way the count is the number of unread messages.
  lemma IdleCount<B>(s: State<B>)
    requires Counted(s) && AllIdle(s) && 0 <= s.writeIndex - s.readIndex < WORD
    ensures s.messageCount == s.writeIndex - s.readIndex
  {
    TotalZero(Dues(s.threads));
  }

  lemma {:induction false} ExecCounted<B>(n: nat, room: nat, zero: B, m: nat, schedule: seq<Action<B>>)
    requires n > 0
    ensures Counted(Exec(n, room, zero, m, schedule))
  {
    if schedule == [] {
      InitCounted(n, room, zero, m);
    } else {
      var before, last := Exec(n, room, zero, m, schedule[..|schedule| - 1]), schedule[|schedule| - 1];
      ExecCounted(n, room, zero, m, schedule[..|schedule| - 1]);
      if before.Running(last.tid) {
        match last
        case Call(i, call) => InvokeCounted(before, i, call);
        case Run(i) => StepCounted(before, i);
      }
    }
  }

  /** In every run the message count is what Counted says; so whenever no call is under way, it is the
      number of unread messages. */
  lemma RunsAreCounted<B>(n: nat, room: nat, zero: B, m: nat, schedule: seq<Action<B>>)
    requires 0 < n < WORD
    ensures var s := Exec(n, room, zero, m, schedule);
      Counted(s) && (AllIdle(s) ==> s.messageCount == s.writeIndex - s.readIndex)
  {
    ExecCounted(n, room, zero, m, schedule);
    RunsAreSafe(n, room, zero, m, schedule);
    var s := Exec(n, room, zero, m, schedule);
    if AllIdle(s) { IdleCount(s); }
  }

  // ---- Full does not mean full ------------------------------------------

  lemma ExecStep<B>(n: nat, room: nat, zero: B, m: nat, schedule: seq<Action<B>>, a: Action<B>)
    requires n > 0
    ensures Exec(n, room, zero, m, schedule + [a]) == Apply(Exec(n, room, zero, m, schedule), a)
  {
    assert (schedule + [a])[..|schedule|] == schedule;
  }

  // A ring of one slot on which thread 0 has claimed the slot, while thread 1 stands at pc.
  function ClaimedRing(pc: PC<int>): State<int> {
    State([Slot(Writing, 0, [0], -1)], 0, 0, 0, [WriteAdvance([7], 0, Slot(Empty, 0, [0], -1)), pc], [0], [], [], map[])
  }

  function OpenRing(pc: PC<int>): State<int> {
    State([Slot(Empty, 0, [0], -1)], 0, 0, 0, [pc, Idle], [0], [], [], map[])
  }

  lemma InitialRing()
    ensures Init(1, 1, 0, 2) == OpenRing(Idle)
  {
    var s := Init(1, 1, 0, 2);
    assert s.slots[0].bytes == [0];
    assert s.slots == OpenRing(Idle).slots && s.threads == OpenRing(Idle).threads && s.owners == [0];
  }

  lemma ReachClaimedRing()
    ensures Exec(1, 1, 0, 2, [Call(0, Write([7]))] + [Run(0)] + [Run(0)] + [Run(0)] + [Run(0)]) == ClaimedRing(Idle)
  {
    InitialRing();
    ExecStep(1, 1, 0, 2, [], Call(0, Write([7])));
    ExecStep(1, 1, 0, 2, [Call(0, Write([7]))], Run(0));
    ExecStep(1, 1, 0, 2, [Call(0, Write([7]))] + [Run(0)], Run(0));
    ExecStep(1, 1, 0, 2, [Call(0, Write([7]))] + [Run(0)] + [Run(0)], Run(0));
    ExecStep(1, 1, 0, 2, [Call(0, Write([7]))] + [Run(0)] + [Run(0)] + [Run(0)], Run(0));
    assert [] + [Call(0, Write([7]))] == [Call(0, Write([7]))];
    assert Apply(OpenRing(Idle), Call(0, Write([7]))) == OpenRing(WriteCheckSize([7]));
    assert Apply(OpenRing(WriteCheckSize([7])), Run(0)) == OpenRing(WriteLoadIndex([7]));
    assert Apply(OpenRing(WriteLoadIndex([7])), Run(0)) == OpenRing(WriteLoadFlag([7], 0));
    assert Apply(OpenRing(WriteLoadFlag([7], 0)), Run(0)) == OpenRing(WriteClaim([7], 0));
    assert Apply(OpenRing(WriteClaim([7], 0)), Run(0)) == ClaimedRing(Idle);
  }

  /** So the report does not mean that the ring is full: here it is empty, and one other writer has
      only claimed the slot. */
  lemma SecondWriterRefused()
    ensures Apply(ClaimedRing(Idle), Call(1, Write([8]))) == ClaimedRing(WriteCheckSize([8]))
    ensures Apply(ClaimedRing(WriteCheckSize([8])), Run(1)) == ClaimedRing(WriteLoadIndex([8]))
    ensures Apply(ClaimedRing(WriteLoadIndex([8])), Run(1)) == ClaimedRing(WriteLoadFlag([8], 0))
    ensures Apply(ClaimedRing(WriteLoadFlag([8], 0)), Run(1)) == ClaimedRing(Returning(Full))
  {
  }

  lemma FullThoughEmpty()
    ensures exists schedule: seq<Action<int>> ::
      var s := Exec(1, 1, 0, 2, schedule);
      |s.threads| == 2 && s.threads[1] == Returning(Full) && s.writeIndex == s.readIndex == 0
  {
    var before := [Call(0, Write([7]))] + [Run(0)] + [Run(0)] + [Run(0)] + [Run(0)];
    ReachClaimedRing();
    ExecStep(1, 1, 0, 2, before, Call(1, Write([8])));
    ExecStep(1, 1, 0, 2, before + [Call(1, Write([8]))], Run(1));
    ExecStep(1, 1, 0, 2, before + [Call(1, Write([8]))] + [Run(1)], Run(1));
    ExecStep(1, 1, 0, 2, before + [Call(1, Write([8]))] + [Run(1)] + [Run(1)], Run(1));
    SecondWriterRefused();
    var schedule := before + [Call(1, Write([8]))] + [Run(1)] + [Run(1)] + [Run(1)];
    assert Exec(1, 1, 0, 2, schedule) == ClaimedRing(Returning(Full));
  }

  // ---- What the calls answer ----------------------------------------------

  predicate Idles<B>(s: State<B>, i: nat) { i < |s.threads| && s.threads[i] == Idle }

  // The calls made of thread i while it was idle, one after another.
  function Accepted<B>(n: nat, room: nat, zero: B, m: nat, schedule: seq<Action<B>>, i: nat): (calls: seq<Call<B>>)
    requires n > 0
  {
    if schedule == [] then []
    else
      var before, last := schedule[..|schedule| - 1], schedule[|schedule| - 1];
      Accepted(n, room, zero, m, before, i)
      + if last.Call? && last.tid == i && Idles(Exec(n, room, zero, m, before), i) then [last.call] else []
  }

  predicate Returns<B>(s: State<B>, s': State<B>, i: nat) {
    i < |s.threads| && s.threads[i].Returning? && Idles(s', i)
  }

  // The answers that thread i got, as it became idle again.
  function Answers<B>(n: nat, room: nat, zero: B, m: nat, schedule: seq<Action<B>>, i: nat): (answers: seq<Answer<B>>)
    requires n > 0
  {
    if schedule == [] then []
    else
      var before := schedule[..|schedule| - 1];
      var s := Exec(n, room, zero, m, before);
      Answers(n, room, zero, m, before, i)
      + if Returns(s, Exec(n, room, zero, m, schedule), i) then [s.threads[i].answer] else []
  }

  // The nth call of a thread.
  datatype Turn = Turn(tid: nat, nth: nat)

  // Who won each write index: the call whose step moved it on.
  function Writers<B>(n: nat, room: nat, zero: B, m: nat, schedule: seq<Action<B>>): (turns: seq<Turn>)
    requires n > 0
  {
    if schedule == [] then []
    else
      var before, last := schedule[..|schedule| - 1], schedule[|schedule| - 1];
      Writers(n, room, zero, m, before)
      + if Exec(n, room, zero, m, schedule).writeIndex > Exec(n, room, zero, m, before).writeIndex
        then [Turn(last.tid, |Answers(n, room, zero, m, before, last.tid)|)] else []
  }

  // And who won each read index.
  function Takers<B>(n: nat, room: nat, zero: B, m: nat, schedule: seq<Action<B>>): (turns: seq<Turn>)
    requires n > 0
  {
    if schedule == [] then []
    else
      var before, last := schedule[..|schedule| - 1], schedule[|schedule| - 1];
      Takers(n, room, zero, m, before)
      + if Exec(n, room, zero, m, schedule).readIndex > Exec(n, room, zero, m, before).readIndex
        then [Turn(last.tid, |Answers(n, room, zero, m, before, last.tid)|)] else []
  }

  // The index that thread i has won for its call under way.
  function WonWrite<B>(pc: PC<B>): Option<nat> {
    match pc
    case WritePutLen(_, index) => Some(index)
    case WriteCopy(_, index) => Some(index)
    case WriteReady(_, index) => Some(index)
    case WriteCount(_, index) => Some(index)
    case Returning(answer) => if answer.Wrote? then Some(answer.index) else None
    case _ => None
  }

  // What a call may be answered.
  ghost predicate Serves<B>(call: Call<B>, answer: Answer<B>, room: nat) {
    match call
    case Write(msg) => if |msg| > room then answer == TooLarge else answer == Full || answer.Wrote?
    case Read => answer == NothingReady || answer.Got?
  }

  // Where a thread may stand that serves a call.
  ghost predicate Doing<B>(call: Call<B>, pc: PC<B>, room: nat) {
    if pc.Returning? then Serves(call, pc.answer, room)
    else
      match call
      case Write(msg) => Text(pc) == Some(msg) && (!pc.WriteCheckSize? ==> |msg| <= room)
      case Read => pc != Idle && Text(pc) == None
  }

  function Text<B>(pc: PC<B>): Option<seq<B>> {
    match pc
    case WriteCheckSize(msg) => Some(msg)
    case WriteLoadIndex(msg) => Some(msg)
    case WriteLoadFlag(msg, _) => Some(msg)
    case WriteClaim(msg, _) => Some(msg)
    case WriteAdvance(msg, _, _) => Some(msg)
    case WriteRelease(msg, _, _) => Some(msg)
    case WritePutLen(msg, _) => Some(msg)
    case WriteCopy(msg, _) => Some(msg)
    case WriteReady(msg, _) => Some(msg)
    case WriteCount(msg, _) => Some(msg)
    case _ => None
  }

  // The calls and answers of thread i so far, and what it is doing now.
  ghost predicate Tallied<B>(s: State<B>, i: nat, calls: seq<Call<B>>, answers: seq<Answer<B>>, room: nat)
    requires i < |s.threads|
  {
    && |calls| == |answers| + (if s.threads[i] == Idle then 0 else 1)
    && (forall r {:trigger answers[r]} :: 0 <= r < |answers| ==> Serves(calls[r], answers[r], room))
    && (s.threads[i] != Idle ==> Doing(calls[|answers|], s.threads[i], room))
  }

  ghost predicate Roomy<B>(s: State<B>, room: nat) { |s.slots| > 0 && |s.slots[0].bytes| == room }

  lemma WriteDoing<B>(s: State<B>, i: nat, call: Call<B>, room: nat)
    requires s.Running(i) && Roomy(s, room) && Text(s.threads[i]).Some? && Doing(call, s.threads[i], room)
    ensures |Step(s, i).threads| == |s.threads| && Step(s, i).threads[i] != Idle
    ensures Doing(call, Step(s, i).threads[i], room)
  {
  }

  lemma ReadDoing<B>(s: State<B>, i: nat, call: Call<B>, room: nat)
    requires s.Running(i) && Text(s.threads[i]).None? && !s.threads[i].Returning? && s.threads[i] != Idle
    requires Doing(call, s.threads[i], room)
    ensures |Step(s, i).threads| == |s.threads| && Step(s, i).threads[i] != Idle
    ensures Doing(call, Step(s, i).threads[i], room)
  {
  }

  // Nobody but the mover moves.
  lemma WriterAlone<B>(s: State<B>, i: nat, j: nat)
    requires s.Running(i) && j < |s.threads| && j != i && Text(s.threads[i]).Some?
    ensures |Step(s, i).threads| == |s.threads| && Step(s, i).threads[j] == s.threads[j]
  {
  }

  lemma ReaderAlone<B>(s: State<B>, i: nat, j: nat)
    requires s.Running(i) && j < |s.threads| && j != i && Text(s.threads[i]).None?
    ensures |Step(s, i).threads| == |s.threads| && Step(s, i).threads[j] == s.threads[j]
  {
  }

  lemma MoverAlone<B>(s: State<B>, a: Action<B>, j: nat)
    requires j < |s.threads| && j != a.tid
    ensures |Apply(s, a).threads| == |s.threads| && Apply(s, a).threads[j] == s.threads[j]
  {
    if s.Running(a.tid) && a.Run? {
      if Text(s.threads[a.tid]).Some? { WriterAlone(s, a.tid, j); } else { ReaderAlone(s, a.tid, j); }
    }
  }

  lemma ActionTallied<B>(s: State<B>, a: Action<B>, i: nat, calls: seq<Call<B>>, answers: seq<Answer<B>>, room: nat)
    requires i < |s.threads| && s.Running(i) && Roomy(s, room) && Tallied(s, i, calls, answers, room)
    ensures var s' := Apply(s, a);
      && |s'.threads| == |s.threads|
      && Tallied(s', i, calls + (if a.Call? && a.tid == i && Idles(s, i) then [a.call] else []),
                 answers + (if Returns(s, s', i) then [s.threads[i].answer] else []), room)
  {
    assert calls + [] == calls && answers + [] == answers;
    if a.tid != i {
      MoverAlone(s, a, i);
    } else if a.Run? && s.threads[i] != Idle && !s.threads[i].Returning? {
      if Text(s.threads[i]).Some? {
        WriteDoing(s, i, calls[|answers|], room);
      } else {
        ReadDoing(s, i, calls[|answers|], room);
      }
    }
  }

  lemma RoomKept<B>(s: State<B>, a: Action<B>, room: nat)
    requires Roomy(s, room)
    ensures Roomy(Apply(s, a), room) && |Apply(s, a).threads| == |s.threads|
  {
  }

  lemma {:induction false} RunSized<B>(n: nat, room: nat, zero: B, m: nat, schedule: seq<Action<B>>)
    requires n > 0
    ensures var s := Exec(n, room, zero, m, schedule); Inv(s) && Roomy(s, room) && |s.threads| == m
  {
    RunsAreSafe(n, room, zero, m, schedule);
    if schedule != [] {
      var before := schedule[..|schedule| - 1];
      RunSized(n, room, zero, m, before);
      RoomKept(Exec(n, room, zero, m, before), schedule[|schedule| - 1], room);
    }
  }

  /** What a thread answers, it answers to its calls, in order.  A write too large for a slot is told so,
      and no other is. */
  lemma {:induction false} RunTallied<B>(n: nat, room: nat, zero: B, m: nat, schedule: seq<Action<B>>, i: nat)
    requires n > 0 && i < m
    ensures var s := Exec(n, room, zero, m, schedule);
      && i < |s.threads|
      && Tallied(s, i, Accepted(n, room, zero, m, schedule, i), Answers(n, room, zero, m, schedule, i), room)
  {
    if schedule != [] {
      var before := schedule[..|schedule| - 1];
      RunTallied(n, room, zero, m, before, i);
      RunSized(n, room, zero, m, before);
      ActionTallied(Exec(n, room, zero, m, before), schedule[|schedule| - 1], i,
        Accepted(n, room, zero, m, before, i), Answers(n, room, zero, m, before, i), room);
    }
  }

  // ---- Who won which index ------------------------------------------------

  // What a move of thread i does to the write index: nothing, or the thread wins it for its message.
  ghost predicate WriteMove<B>(s: State<B>, s': State<B>, i: nat)
    requires i < |s.threads|
  {
    if s'.writeIndex > s.writeIndex then
      && Text(s.threads[i]).Some? && WonWrite(s.threads[i]) == None && !s.threads[i].Returning?
      && i < |s'.threads| && WonWrite(s'.threads[i]) == Some(s.writeIndex)
      && s'.writeIndex == s.writeIndex + 1 && s'.written == s.written + [Text(s.threads[i]).value]
    else
      && s'.writeIndex == s.writeIndex && s'.written == s.written && i < |s'.threads|
      && (!Returns(s, s', i) ==> WonWrite(s'.threads[i]) == WonWrite(s.threads[i]))
  }

  // And to the read index.
  ghost predicate ReadMove<B>(s: State<B>, s': State<B>, i: nat)
    requires i < |s.threads|
  {
    if s'.readIndex > s.readIndex then
      && s.threads[i].ReadAdvance? && i < |s'.threads| && Won(s'.threads[i]) == Some(s.readIndex)
      && s'.readIndex == s.readIndex + 1 && s.readIndex < |s.written|
    else
      && s'.readIndex == s.readIndex && i < |s'.threads|
      && (!Returns(s, s', i) ==> Won(s'.threads[i]) == Won(s.threads[i]))
  }

  lemma WritersMove<B>(s: State<B>, i: nat)
    requires Sized(s) && s.Running(i) && Text(s.threads[i]).Some?
    ensures WriteMove(s, Step(s, i), i) && ReadMove(s, Step(s, i), i)
  {
  }

  lemma ReadersMove<B>(s: State<B>, i: nat)
    requires Inv(s) && s.Running(i) && Text(s.threads[i]).None?
    ensures WriteMove(s, Step(s, i), i) && ReadMove(s, Step(s, i), i)
  {
    if s.threads[i].ReadAdvance? && s.threads[i].index == s.readIndex { ReadAdvanceOwn(s, i); }
  }

  lemma IndexMoves<B>(s: State<B>, a: Action<B>)
    requires Inv(s) && s.Running(a.tid)
    ensures WriteMove(s, Apply(s, a), a.tid) && ReadMove(s, Apply(s, a), a.tid)
  {
    if a.Run? {
      if Text(s.threads[a.tid]).Some? { WritersMove(s, a.tid); } else { ReadersMove(s, a.tid); }
    }
  }

  // Index k was won by the call t, which writes the message there; it has said so, or is about to.
  ghost predicate WonBy<B>(s: State<B>, k: nat, t: Turn, calls: seq<Call<B>>, answers: seq<Answer<B>>) {
    && k < |s.written| && t.tid < |s.threads| && t.nth < |calls| && calls[t.nth] == Write(s.written[k])
    && if t.nth < |answers| then answers[t.nth] == Wrote(k)
       else t.nth == |answers| && WonWrite(s.threads[t.tid]) == Some(k)
  }

  ghost predicate TakenBy<B>(s: State<B>, k: nat, t: Turn, calls: seq<Call<B>>, answers: seq<Answer<B>>) {
    && k < |s.written| && t.tid < |s.threads| && t.nth < |calls| && calls[t.nth] == Read
    && if t.nth < |answers| then answers[t.nth] == Got(k, s.written[k])
       else t.nth == |answers| && Won(s.threads[t.tid]) == Some(k)
  }

  lemma WonByKept<B>(s: State<B>, a: Action<B>, k: nat, t: Turn, calls: seq<Call<B>>, answers: seq<Answer<B>>,
                     more: seq<Call<B>>)
    requires Inv(s) && s.Running(a.tid) && WonBy(s, k, t, calls, answers)
    ensures var s' := Apply(s, a);
      WonBy(s', k, t, calls + more, answers + (if Returns(s, s', t.tid) then [s.threads[t.tid].answer] else []))
  {
    var s' := Apply(s, a);
    IndexMoves(s, a);
    if t.tid != a.tid { MoverAlone(s, a, t.tid); }
    if Returns(s, s', t.tid) && t.nth == |answers| { assert WonWrite(s.threads[t.tid]) == Some(k); }
  }

  lemma TakenByKept<B>(s: State<B>, a: Action<B>, k: nat, t: Turn, calls: seq<Call<B>>, answers: seq<Answer<B>>,
                       more: seq<Call<B>>)
    requires Inv(s) && s.Running(a.tid) && TakenBy(s, k, t, calls, answers)
    ensures var s' := Apply(s, a);
      TakenBy(s', k, t, calls + more, answers + (if Returns(s, s', t.tid) then [s.threads[t.tid].answer] else []))
  {
    var s' := Apply(s, a);
    IndexMoves(s, a);
    if t.tid != a.tid { MoverAlone(s, a, t.tid); }
    assert ThreadOK(s, t.tid);
  }

  lemma WonByNow<B>(s: State<B>, a: Action<B>, calls: seq<Call<B>>, answers: seq<Answer<B>>, room: nat)
    requires Inv(s) && s.Running(a.tid) && Tallied(s, a.tid, calls, answers, room)
    requires Apply(s, a).writeIndex > s.writeIndex
    ensures !Returns(s, Apply(s, a), a.tid)
    ensures WonBy(Apply(s, a), s.writeIndex, Turn(a.tid, |answers|), calls, answers)
  {
    IndexMoves(s, a);
  }

  lemma TakenByNow<B>(s: State<B>, a: Action<B>, calls: seq<Call<B>>, answers: seq<Answer<B>>, room: nat)
    requires Inv(s) && s.Running(a.tid) && Tallied(s, a.tid, calls, answers, room)
    requires Apply(s, a).readIndex > s.readIndex
    ensures !Returns(s, Apply(s, a), a.tid)
    ensures TakenBy(Apply(s, a), s.readIndex, Turn(a.tid, |answers|), calls, answers)
  {
    IndexMoves(s, a);
    assert Apply(s, a).written == s.written;
  }

  ghost predicate WriterFound<B>(n: nat, room: nat, zero: B, m: nat, schedule: seq<Action<B>>, k: nat)
    requires n > 0
  {
    var writers := Writers(n, room, zero, m, schedule);
    && k < |writers|
    && WonBy(Exec(n, room, zero, m, schedule), k, writers[k],
             Accepted(n, room, zero, m, schedule, writers[k].tid), Answers(n, room, zero, m, schedule, writers[k].tid))
  }

  lemma {:induction false} WritersCount<B>(n: nat, room: nat, zero: B, m: nat, schedule: seq<Action<B>>)
    requires n > 0
    ensures |Writers(n, room, zero, m, schedule)| == Exec(n, room, zero, m, schedule).writeIndex
    ensures |Takers(n, room, zero, m, schedule)| == Exec(n, room, zero, m, schedule).readIndex
  {
    if schedule != [] {
      var before, a := schedule[..|schedule| - 1], schedule[|schedule| - 1];
      WritersCount(n, room, zero, m, before);
      RunSized(n, room, zero, m, before);
      if Exec(n, room, zero, m, before).Running(a.tid) { IndexMoves(Exec(n, room, zero, m, before), a); }
    }
  }

  lemma IndexStep<B>(n: nat, room: nat, zero: B, m: nat, schedule: seq<Action<B>>)
    requires n > 0 && schedule != []
    ensures var s, s' := Exec(n, room, zero, m, schedule[..|schedule| - 1]), Exec(n, room, zero, m, schedule);
      s.writeIndex <= s'.writeIndex <= s.writeIndex + 1 && s.readIndex <= s'.readIndex <= s.readIndex + 1
  {
    var before, a := schedule[..|schedule| - 1], schedule[|schedule| - 1];
    RunSized(n, room, zero, m, before);
    if Exec(n, room, zero, m, before).Running(a.tid) { IndexMoves(Exec(n, room, zero, m, before), a); }
  }

  lemma WriterLater<B>(n: nat, room: nat, zero: B, m: nat, schedule: seq<Action<B>>, k: nat)
    requires n > 0 && schedule != [] && WriterFound(n, room, zero, m, schedule[..|schedule| - 1], k)
    ensures WriterFound(n, room, zero, m, schedule, k)
  {
    var before, a := schedule[..|schedule| - 1], schedule[|schedule| - 1];
    var s, t := Exec(n, room, zero, m, before), Writers(n, room, zero, m, before)[k];
    RunSized(n, room, zero, m, before);
    if s.Running(a.tid) {
      WonByKept(s, a, k, t, Accepted(n, room, zero, m, before, t.tid), Answers(n, room, zero, m, before, t.tid),
        if a.Call? && a.tid == t.tid && Idles(s, t.tid) then [a.call] else []);
    }
  }

  lemma WriterNew<B>(n: nat, room: nat, zero: B, m: nat, schedule: seq<Action<B>>)
    requires n > 0 && schedule != []
    requires Exec(n, room, zero, m, schedule).writeIndex > Exec(n, room, zero, m, schedule[..|schedule| - 1]).writeIndex
    ensures WriterFound(n, room, zero, m, schedule, Exec(n, room, zero, m, schedule[..|schedule| - 1]).writeIndex)
  {
    var before, a := schedule[..|schedule| - 1], schedule[|schedule| - 1];
    var s := Exec(n, room, zero, m, before);
    WritersCount(n, room, zero, m, before);
    RunSized(n, room, zero, m, before);
    RunTallied(n, room, zero, m, before, a.tid);
    IndexMoves(s, a);
    WonByNow(s, a, Accepted(n, room, zero, m, before, a.tid), Answers(n, room, zero, m, before, a.tid), room);
  }

  // Every index below the write index was won by one call, whose message it holds.
  lemma {:induction false} RunWriter<B>(n: nat, room: nat, zero: B, m: nat, schedule: seq<Action<B>>, k: nat)
    requires n > 0 && k < Exec(n, room, zero, m, schedule).writeIndex
    ensures WriterFound(n, room, zero, m, schedule, k)
  {
    if schedule != [] {
      var e := Exec(n, room, zero, m, schedule[..|schedule| - 1]).writeIndex;
      IndexStep(n, room, zero, m, schedule);
      if k < e {
        RunWriter(n, room, zero, m, schedule[..|schedule| - 1], k);
        WriterLater(n, room, zero, m, schedule, k);
      } else {
        WriterNew(n, room, zero, m, schedule);
        assert k == e;
      }
    }
  }

  ghost predicate TakerFound<B>(n: nat, room: nat, zero: B, m: nat, schedule: seq<Action<B>>, k: nat)
    requires n > 0
  {
    var takers := Takers(n, room, zero, m, schedule);
    && k < |takers|
    && TakenBy(Exec(n, room, zero, m, schedule), k, takers[k],
               Accepted(n, room, zero, m, schedule, takers[k].tid), Answers(n, room, zero, m, schedule, takers[k].tid))
  }

  lemma TakerLater<B>(n: nat, room: nat, zero: B, m: nat, schedule: seq<Action<B>>, k: nat)
    requires n > 0 && schedule != [] && TakerFound(n, room, zero, m, schedule[..|schedule| - 1], k)
    ensures TakerFound(n, room, zero, m, schedule, k)
  {
    var before, a := schedule[..|schedule| - 1], schedule[|schedule| - 1];
    var s, t := Exec(n, room, zero, m, before), Takers(n, room, zero, m, before)[k];
    RunSized(n, room, zero, m, before);
    if s.Running(a.tid) {
      TakenByKept(s, a, k, t, Accepted(n, room, zero, m, before, t.tid), Answers(n, room, zero, m, before, t.tid),
        if a.Call? && a.tid == t.tid && Idles(s, t.tid) then [a.call] else []);
    }
  }

  lemma TakerNew<B>(n: nat, room: nat, zero: B, m: nat, schedule: seq<Action<B>>)
    requires n > 0 && schedule != []
    requires Exec(n, room, zero, m, schedule).readIndex > Exec(n, room, zero, m, schedule[..|schedule| - 1]).readIndex
    ensures TakerFound(n, room, zero, m, schedule, Exec(n, room, zero, m, schedule[..|schedule| - 1]).readIndex)
  {
    var before, a := schedule[..|schedule| - 1], schedule[|schedule| - 1];
    var s := Exec(n, room, zero, m, before);
    WritersCount(n, room, zero, m, before);
    RunSized(n, room, zero, m, before);
    RunTallied(n, room, zero, m, before, a.tid);
    IndexMoves(s, a);
    TakenByNow(s, a, Accepted(n, room, zero, m, before, a.tid), Answers(n, room, zero, m, before, a.tid), room);
  }

  // Every index below the read index was won by one call, which gets its message.
  lemma {:induction false} RunTaker<B>(n: nat, room: nat, zero: B, m: nat, schedule: seq<Action<B>>, k: nat)
    requires n > 0 && k < Exec(n, room, zero, m, schedule).readIndex
    ensures TakerFound(n, room, zero, m, schedule, k)
  {
    if schedule != [] {
      var e := Exec(n, room, zero, m, schedule[..|schedule| - 1]).readIndex;
      IndexStep(n, room, zero, m, schedule);
      if k < e {
        RunTaker(n, room, zero, m, schedule[..|schedule| - 1], k);
        TakerLater(n, room, zero, m, schedule, k);
      } else {
        TakerNew(n, room, zero, m, schedule);
        assert k == e;
      }
    }
  }

  // An index that a call of thread i answers, or has won, is on record as won by that call.
  ghost predicate WinsListed<B>(pc: PC<B>, i: nat, answers: seq<Answer<B>>, writers: seq<Turn>, takers: seq<Turn>) {
    && (forall r {:trigger answers[r]} :: 0 <= r < |answers| ==>
          && (answers[r].Wrote? ==> answers[r].index < |writers| && writers[answers[r].index] == Turn(i, r))
          && (answers[r].Got? ==> answers[r].index < |takers| && takers[answers[r].index] == Turn(i, r)))
    && (WonWrite(pc).Some? ==> WonWrite(pc).value < |writers| && writers[WonWrite(pc).value] == Turn(i, |answers|))
    && (Won(pc).Some? ==> Won(pc).value < |takers| && takers[Won(pc).value] == Turn(i, |answers|))
  }

  lemma WinsKept<B>(s: State<B>, a: Action<B>, i: nat, answers: seq<Answer<B>>, writers: seq<Turn>, takers: seq<Turn>,
                    nth: nat)
    requires Inv(s) && s.Running(a.tid) && i < |s.threads| && WinsListed(s.threads[i], i, answers, writers, takers)
    requires |writers| == s.writeIndex && |takers| == s.readIndex && (a.tid == i ==> nth == |answers|)
    ensures var s' := Apply(s, a);
      && i < |s'.threads|
      && WinsListed(s'.threads[i], i, answers + (if Returns(s, s', i) then [s.threads[i].answer] else []),
           writers + (if s'.writeIndex > s.writeIndex then [Turn(a.tid, nth)] else []),
           takers + (if s'.readIndex > s.readIndex then [Turn(a.tid, nth)] else []))
  {
    IndexMoves(s, a);
    if a.tid != i { MoverAlone(s, a, i); }
  }

  lemma {:induction false} RunWins<B>(n: nat, room: nat, zero: B, m: nat, schedule: seq<Action<B>>, i: nat)
    requires n > 0 && i < m
    ensures i < |Exec(n, room, zero, m, schedule).threads|
    ensures WinsListed(Exec(n, room, zero, m, schedule).threads[i], i, Answers(n, room, zero, m, schedule, i),
              Writers(n, room, zero, m, schedule), Takers(n, room, zero, m, schedule))
  {
    if schedule != [] {
      var before, a := schedule[..|schedule| - 1], schedule[|schedule| - 1];
      var s := Exec(n, room, zero, m, before);
      RunWins(n, room, zero, m, before, i);
      RunSized(n, room, zero, m, before);
      WritersCount(n, room, zero, m, before);
      if s.Running(a.tid) {
        WinsKept(s, a, i, Answers(n, room, zero, m, before, i), Writers(n, room, zero, m, before),
          Takers(n, room, zero, m, before), |Answers(n, room, zero, m, before, a.tid)|);
      }
    }
  }

  /** What a Write answers.  It answers an index exactly when it is the call that won this index, for its
      own message; too large exactly when the message is; and full otherwise, having won no index.  And
      each index below the write index is won by one call, by a Write that says so or is about to. */
  lemma WritesMean<B>(n: nat, room: nat, zero: B, m: nat, schedule: seq<Action<B>>, i: nat, r: nat, msg: seq<B>)
    requires n > 0 && i < m && r < |Answers(n, room, zero, m, schedule, i)|
    ensures r < |Accepted(n, room, zero, m, schedule, i)|
    ensures Accepted(n, room, zero, m, schedule, i)[r] == Write(msg) ==>
      var s, answer, writers := Exec(n, room, zero, m, schedule), Answers(n, room, zero, m, schedule, i)[r],
        Writers(n, room, zero, m, schedule);
      && (answer == TooLarge <==> |msg| > room) && (answer == TooLarge || answer == Full || answer.Wrote?)
      && |writers| == s.writeIndex == |s.written|
      && (forall k: nat {:trigger writers[k]} :: k < |writers| ==> (writers[k] == Turn(i, r) <==> answer == Wrote(k)))
      && (answer.Wrote? ==> answer.index < s.writeIndex && s.written[answer.index] == msg)
  {
    var s, writers := Exec(n, room, zero, m, schedule), Writers(n, room, zero, m, schedule);
    RunTallied(n, room, zero, m, schedule, i);
    RunSized(n, room, zero, m, schedule);
    RunWins(n, room, zero, m, schedule, i);
    WritersCount(n, room, zero, m, schedule);
    var answer := Answers(n, room, zero, m, schedule, i)[r];
    assert Serves(Accepted(n, room, zero, m, schedule, i)[r], answer, room);
    forall k: nat {:trigger writers[k]} | k < |writers| && writers[k] == Turn(i, r) ensures answer == Wrote(k) {
      RunWriter(n, room, zero, m, schedule, k);
    }
    if answer.Wrote? { RunWriter(n, room, zero, m, schedule, answer.index); }
  }

  /** And what a Read answers: the message of an index exactly when it is the call that won it, and
      nothing ready otherwise. */
  lemma ReadsMean<B>(n: nat, room: nat, zero: B, m: nat, schedule: seq<Action<B>>, i: nat, r: nat)
    requires n > 0 && i < m && r < |Answers(n, room, zero, m, schedule, i)|
    ensures r < |Accepted(n, room, zero, m, schedule, i)|
    ensures Accepted(n, room, zero, m, schedule, i)[r] == Read ==>
      var s, answer, takers := Exec(n, room, zero, m, schedule), Answers(n, room, zero, m, schedule, i)[r],
        Takers(n, room, zero, m, schedule);
      && (answer == NothingReady || answer.Got?)
      && |takers| == s.readIndex <= |s.written|
      && (forall k: nat {:trigger takers[k]} :: k < |takers| ==>
            (takers[k] == Turn(i, r) <==> answer == Got(k, s.written[k])))
      && (answer.Got? ==> answer.index < s.readIndex && answer.msg == s.written[answer.index])
  {
    var s, takers := Exec(n, room, zero, m, schedule), Takers(n, room, zero, m, schedule);
    RunTallied(n, room, zero, m, schedule, i);
    RunSized(n, room, zero, m, schedule);
    RunWins(n, room, zero, m, schedule, i);
    WritersCount(n, room, zero, m, schedule);
    var answer := Answers(n, room, zero, m, schedule, i)[r];
    assert Serves(Accepted(n, room, zero, m, schedule, i)[r], answer, room);
    forall k: nat {:trigger takers[k]} | k < |takers| && takers[k] == Turn(i, r)
      ensures answer == Got(k, s.written[k])
    {
      RunTaker(n, room, zero, m, schedule, k);
    }
    if answer.Got? { RunTaker(n, room, zero, m, schedule, answer.index); }
  }

  // ---- Refusals -------------------------------------------------------------

  // Thread i is refused at its flag check.
  ghost predicate Refuses<B>(s: State<B>, i: nat, answer: Answer<B>) {
    && s.Running(i) && Step(s, i).threads == s.threads[i := Returning(answer)]
    && ((answer == Full && s.threads[i].WriteLoadFlag?) || (answer == NothingReady && s.threads[i].ReadLoadFlag?))
  }

  // While thread i served its rth call it was refused.
  ghost predicate WasRefused<B>(n: nat, room: nat, zero: B, m: nat, schedule: seq<Action<B>>, i: nat, r: nat,
                                answer: Answer<B>)
    requires n > 0
  {
    exists j: nat {:trigger schedule[..j]} ::
      && j < |schedule| && |Answers(n, room, zero, m, schedule[..j], i)| == r
      && Refuses(Exec(n, room, zero, m, schedule[..j]), i, answer)
  }

  lemma RefusedStill<B>(n: nat, room: nat, zero: B, m: nat, schedule: seq<Action<B>>, i: nat, r: nat, answer: Answer<B>)
    requires n > 0 && schedule != [] && WasRefused(n, room, zero, m, schedule[..|schedule| - 1], i, r, answer)
    ensures WasRefused(n, room, zero, m, schedule, i, r, answer)
  {
    var before := schedule[..|schedule| - 1];
    var j: nat :| j < |before| && |Answers(n, room, zero, m, before[..j], i)| == r
                  && Refuses(Exec(n, room, zero, m, before[..j]), i, answer);
    assert before[..j] == schedule[..j];
  }

  ghost predicate IsRefusal<B>(pc: PC<B>) { pc == Returning(Full) || pc == Returning(NothingReady) }

  // A thread comes to a refusal at its flag check only.
  lemma NotRefused<B>(s: State<B>, i: nat)
    requires s.Running(i) && Text(s.threads[i]).Some? && !s.threads[i].WriteLoadFlag?
    ensures i < |Step(s, i).threads| && !IsRefusal(Step(s, i).threads[i])
  {
  }

  lemma WriteRefused<B>(s: State<B>, i: nat)
    requires s.Running(i) && Text(s.threads[i]).Some? && i < |Step(s, i).threads| && IsRefusal(Step(s, i).threads[i])
    ensures Refuses(s, i, Step(s, i).threads[i].answer)
  {
    if !s.threads[i].WriteLoadFlag? { NotRefused(s, i); }
  }

  lemma ReadRefused<B>(s: State<B>, i: nat)
    requires s.Running(i) && Text(s.threads[i]).None? && i < |Step(s, i).threads| && IsRefusal(Step(s, i).threads[i])
    ensures Refuses(s, i, Step(s, i).threads[i].answer)
  {
  }

  lemma RefusalComes<B>(s: State<B>, a: Action<B>, i: nat)
    requires i < |s.threads| && |Apply(s, a).threads| == |s.threads| && IsRefusal(Apply(s, a).threads[i])
    ensures Apply(s, a).threads[i] == s.threads[i] || Refuses(s, i, Apply(s, a).threads[i].answer)
  {
    if a.tid != i {
      MoverAlone(s, a, i);
    } else if a.Run? && s.Running(i) {
      if Text(s.threads[i]).Some? { WriteRefused(s, i); } else { ReadRefused(s, i); }
    }
  }

  ghost predicate RefusalsKnown<B>(n: nat, room: nat, zero: B, m: nat, schedule: seq<Action<B>>, i: nat)
    requires n > 0
  {
    var s, answers := Exec(n, room, zero, m, schedule), Answers(n, room, zero, m, schedule, i);
    && i < |s.threads|
    && (IsRefusal(s.threads[i]) ==> WasRefused(n, room, zero, m, schedule, i, |answers|, s.threads[i].answer))
    && forall r {:trigger answers[r]} :: 0 <= r < |answers| && (answers[r] == Full || answers[r] == NothingReady) ==>
         WasRefused(n, room, zero, m, schedule, i, r, answers[r])
  }

  lemma {:induction false} RunRefusals<B>(n: nat, room: nat, zero: B, m: nat, schedule: seq<Action<B>>, i: nat)
    requires n > 0 && i < m
    ensures RefusalsKnown(n, room, zero, m, schedule, i)
  {
    RunSized(n, room, zero, m, schedule);
    if schedule != [] {
      var before, a := schedule[..|schedule| - 1], schedule[|schedule| - 1];
      var s, s' := Exec(n, room, zero, m, before), Exec(n, room, zero, m, schedule);
      var answers, answers' := Answers(n, room, zero, m, before, i), Answers(n, room, zero, m, schedule, i);
      RunRefusals(n, room, zero, m, before, i);
      RunSized(n, room, zero, m, before);
      if IsRefusal(s'.threads[i]) {
        RefusalComes(s, a, i);
        if s'.threads[i] == s.threads[i] {
          RefusedStill(n, room, zero, m, schedule, i, |answers|, s.threads[i].answer);
        } else {
          assert schedule[..|before|] == before;
        }
      }
      forall r {:trigger answers'[r]} | 0 <= r < |answers'| && (answers'[r] == Full || answers'[r] == NothingReady)
        ensures WasRefused(n, room, zero, m, schedule, i, r, answers'[r])
      {
        if r < |answers| { assert answers'[r] == answers[r]; }
        RefusedStill(n, room, zero, m, schedule, i, r, answers'[r]);
      }
    }
  }

  ghost predicate FullAt<B>(s: State<B>, i: nat) {
    && s.Running(i) && s.threads[i].WriteLoadFlag?
    && var index := s.threads[i].index;
       && (s.readIndex <= s.slots[s.At(index)].last || Held(s, s.At(index)))
       && (index == s.writeIndex ==> s.writeIndex == s.readIndex + |s.slots| || Held(s, s.At(index)))
  }

  ghost predicate NothingReadyAt<B>(s: State<B>, i: nat) {
    && s.Running(i) && s.threads[i].ReadLoadFlag?
    && var index := s.threads[i].index;
       && (s.slots[s.At(index)].last < s.readIndex || Held(s, s.At(index)))
       && (index == s.readIndex ==> s.readIndex == s.writeIndex || Held(s, s.At(index)))
  }

  /** A call that answers full was refused at a moment of its own, when the slot it looked at held an
      unread message or was claimed; and if it looked at the write index of that moment, the ring was
      full or the slot claimed. */
  lemma FullAnswers<B>(n: nat, room: nat, zero: B, m: nat, schedule: seq<Action<B>>, i: nat, r: nat)
    requires n > 0 && i < m
    requires r < |Answers(n, room, zero, m, schedule, i)| && Answers(n, room, zero, m, schedule, i)[r] == Full
    ensures exists j: nat {:trigger schedule[..j]} ::
      && j < |schedule| && |Answers(n, room, zero, m, schedule[..j], i)| == r
      && FullAt(Exec(n, room, zero, m, schedule[..j]), i)
  {
    RunRefusals(n, room, zero, m, schedule, i);
    assert WasRefused(n, room, zero, m, schedule, i, r, Answers(n, room, zero, m, schedule, i)[r]);
    var j: nat :| j < |schedule| && |Answers(n, room, zero, m, schedule[..j], i)| == r
                  && Refuses(Exec(n, room, zero, m, schedule[..j]), i, Full);
    RunSized(n, room, zero, m, schedule[..j]);
    FullMeans(Exec(n, room, zero, m, schedule[..j]), i);
  }

  /** A call that answers nothing ready was refused at a moment of its own, when the slot it looked at
      held nothing unread or was claimed; and if it looked at the read index of that moment, the ring was
      empty or the slot claimed. */
  lemma NothingReadyAnswers<B>(n: nat, room: nat, zero: B, m: nat, schedule: seq<Action<B>>, i: nat, r: nat)
    requires n > 0 && i < m
    requires r < |Answers(n, room, zero, m, schedule, i)| && Answers(n, room, zero, m, schedule, i)[r] == NothingReady
    ensures exists j: nat {:trigger schedule[..j]} ::
      && j < |schedule| && |Answers(n, room, zero, m, schedule[..j], i)| == r
      && NothingReadyAt(Exec(n, room, zero, m, schedule[..j]), i)
  {
    RunRefusals(n, room, zero, m, schedule, i);
    assert WasRefused(n, room, zero, m, schedule, i, r, Answers(n, room, zero, m, schedule, i)[r]);
    var j: nat :| j < |schedule| && |Answers(n, room, zero, m, schedule[..j], i)| == r
                  && Refuses(Exec(n, room, zero, m, schedule[..j]), i, NothingReady);
    RunSized(n, room, zero, m, schedule[..j]);
    NothingReadyMeans(Exec(n, room, zero, m, schedule[..j]), i);
  }

  // ---- How many steps calls take --------------------------------------------

  function CallsMade<B>(n: nat, room: nat, zero: B, m: nat, schedule: seq<Action<B>>): (calls: nat)
    requires n > 0
  {
    if schedule == [] then 0
    else
      var before, last := schedule[..|schedule| - 1], schedule[|schedule| - 1];
      CallsMade(n, room, zero, m, before)
      + if last.Call? && Idles(Exec(n, room, zero, m, before), last.tid) then 1 else 0
  }

  predicate Busy<B>(s: State<B>, i: nat) { s.Running(i) && s.threads[i] != Idle }

  // The steps that threads make for their calls.
  function StepsMade<B>(n: nat, room: nat, zero: B, m: nat, schedule: seq<Action<B>>): (steps: nat)
    requires n > 0
  {
    if schedule == [] then 0
    else
      var before, last := schedule[..|schedule| - 1], schedule[|schedule| - 1];
      StepsMade(n, room, zero, m, before) + if last.Run? && Busy(Exec(n, room, zero, m, before), last.tid) then 1 else 0
  }

  // The step of thread i changes a slot flag or moves an index.
  predicate Disturbs<B>(s: State<B>, i: nat)
    requires s.Running(i)
  {
    match s.threads[i]
    case WriteClaim(_, index) => s.slots[s.At(index)].flag == Empty
    case ReadClaim(index) => s.slots[s.At(index)].flag == Ready
    case WriteAdvance(_, index, _) => index == s.writeIndex
    case ReadAdvance(index, _) => index == s.readIndex
    case WriteRelease(_, _, _) => true
    case ReadRelease(_, _) => true
    case WriteReady(_, _) => true
    case ReadClear(_, _) => true
    case _ => false
  }

  // The step of thread i finds its index taken by another.
  predicate Loses<B>(s: State<B>, i: nat)
    requires s.Running(i)
  {
    match s.threads[i]
    case WriteAdvance(_, index, _) => index != s.writeIndex
    case ReadAdvance(index, _) => index != s.readIndex
    case _ => false
  }

  // At most this many more steps of its own bring a thread home, unless a flag or an index changes.
  function Left<B>(s: State<B>, pc: PC<B>): (steps: nat)
    requires |s.slots| > 0
    ensures steps <= 4
  {
    match pc
    case Idle => 0
    case WriteCheckSize(_) => 4
    case WriteLoadIndex(_) => 3
    case WriteLoadFlag(_, _) => 2
    case WriteClaim(_, index) => if s.slots[s.At(index)].flag == Empty then 1 else 4
    case WriteAdvance(_, index, _) => if index == s.writeIndex then 1 else 2
    case WriteRelease(_, _, _) => 1
    case WritePutLen(_, _) => 3
    case WriteCopy(_, _) => 2
    case WriteReady(_, _) => 1
    case WriteCount(_, _) => 2
    case ReadLoadIndex => 3
    case ReadLoadFlag(_) => 2
    case ReadClaim(index) => if s.slots[s.At(index)].flag == Ready then 1 else 4
    case ReadAdvance(index, _) => if index == s.readIndex then 1 else 2
    case ReadRelease(_, _) => 1
    case ReadGetLen(_) => 3
    case ReadCopy(_, _) => 2
    case ReadClear(_, _) => 1
    case ReadCount(_, _) => 2
    case Returning(_) => 1
  }

  // Disturbances made for a claim that is not decided, less those to come for one that is.
  function Open<B>(pc: PC<B>): (d: int) {
    if pc.WriteAdvance? || pc.ReadAdvance? then 1
    else if pc.WriteRelease? || pc.WritePutLen? || pc.WriteCopy? || pc.WriteReady?
         || pc.ReadRelease? || pc.ReadGetLen? || pc.ReadCopy? || pc.ReadClear?
      then -1
    else 0
  }

  // A call that has not won an index.
  function Pending<B>(pc: PC<B>): (d: int)
    ensures Open(pc) <= d
  {
    if pc.WriteCheckSize? || pc.WriteLoadIndex? || pc.WriteLoadFlag? || pc.WriteClaim? || pc.WriteAdvance?
      || pc.WriteRelease? || pc.ReadLoadIndex? || pc.ReadLoadFlag? || pc.ReadClaim? || pc.ReadAdvance?
           || pc.ReadRelease?
      then 1
    else 0
  }

  // A thread whose index has been taken by another since it was loaded.
  function Stale<B>(s: State<B>, pc: PC<B>): (d: int) {
    match pc
    case WriteLoadFlag(_, index) => if index == s.writeIndex then 0 else 1
    case WriteClaim(_, index) => if index == s.writeIndex then 0 else 1
    case WriteAdvance(_, index, _) => if index == s.writeIndex then 0 else 1
    case ReadLoadFlag(index) => if index == s.readIndex then 0 else 1
    case ReadClaim(index) => if index == s.readIndex then 0 else 1
    case ReadAdvance(index, _) => if index == s.readIndex then 0 else 1
    case _ => 0
  }

  function Wins<B>(s: State<B>): nat { s.writeIndex + s.readIndex }

  // No step disturbs: flags and indices stay.
  ghost predicate Undisturbed<B>(s: State<B>, s': State<B>) {
    && |s'.slots| == |s.slots| > 0 && s'.writeIndex == s.writeIndex && s'.readIndex == s.readIndex
    && forall k {:trigger s'.slots[k]} :: 0 <= k < |s.slots| ==> s'.slots[k].flag == s.slots[k].flag
  }

  lemma NumbersStay<B>(s: State<B>, s': State<B>, pc: PC<B>)
    requires Undisturbed(s, s')
    ensures Left(s', pc) == Left(s, pc) && Stale(s', pc) == Stale(s, pc)
  {
  }

  lemma WriteQuiet<B>(s: State<B>, i: nat)
    requires s.Running(i) && Text(s.threads[i]).Some? && !Disturbs(s, i)
    ensures var s' := Step(s, i);
      && Undisturbed(s, s') && |s'.threads| == |s.threads|
      && Left(s', s'.threads[i]) < Left(s, s.threads[i])
      && Open(s'.threads[i]) == Open(s.threads[i]) - (if Loses(s, i) then 2 else 0)
      && Pending(s'.threads[i]) <= Pending(s.threads[i])
      && Stale(s', s'.threads[i]) <= Stale(s, s.threads[i]) - (if Loses(s, i) then 1 else 0)
  {
  }

  lemma ReadQuiet<B>(s: State<B>, i: nat)
    requires s.Running(i) && Text(s.threads[i]).None? && s.threads[i] != Idle && !Disturbs(s, i)
    ensures var s' := Step(s, i);
      && Undisturbed(s, s') && |s'.threads| == |s.threads|
      && Left(s', s'.threads[i]) < Left(s, s.threads[i])
      && Open(s'.threads[i]) == Open(s.threads[i]) - (if Loses(s, i) then 2 else 0)
      && Pending(s'.threads[i]) <= Pending(s.threads[i])
      && Stale(s', s'.threads[i]) <= Stale(s, s.threads[i]) - (if Loses(s, i) then 1 else 0)
  {
  }

  // A step that disturbs is one of three for an index won, or one of two for a claim lost.
  lemma DisturbanceCounts<B>(s: State<B>, i: nat)
    requires s.Running(i) && Disturbs(s, i)
    ensures var s' := Step(s, i);
      && |s'.threads| == |s.threads| && |s'.slots| == |s.slots| && !Loses(s, i)
      && Wins(s) <= Wins(s') <= Wins(s) + 1
      && Open(s'.threads[i]) == Open(s.threads[i]) + 1 - 3 * (Wins(s') - Wins(s))
      && Pending(s'.threads[i]) + Wins(s') <= Pending(s.threads[i]) + Wins(s)
      && (Wins(s') == Wins(s) ==> s'.writeIndex == s.writeIndex && s'.readIndex == s.readIndex)
      && (Wins(s') == Wins(s) ==> Stale(s', s'.threads[i]) <= Stale(s, s.threads[i]))
  {
  }

  ghost function Lefts<B>(s: State<B>): (dues: seq<int>)
    requires |s.slots| > 0
    ensures |dues| == |s.threads|
  {
    seq(|s.threads|, k requires 0 <= k < |s.threads| => Left(s, s.threads[k]))
  }

  ghost function Opens<B>(s: State<B>): (dues: seq<int>)
    ensures |dues| == |s.threads|
  {
    seq(|s.threads|, k requires 0 <= k < |s.threads| => Open(s.threads[k]))
  }

  ghost function Pendings<B>(s: State<B>): (dues: seq<int>)
    ensures |dues| == |s.threads|
  {
    seq(|s.threads|, k requires 0 <= k < |s.threads| => Pending(s.threads[k]))
  }

  ghost function Stales<B>(s: State<B>): (dues: seq<int>)
    ensures |dues| == |s.threads|
  {
    seq(|s.threads|, k requires 0 <= k < |s.threads| => Stale(s, s.threads[k]))
  }

  // Only thread i moves.
  ghost predicate OnlyMoves<B>(s: State<B>, s': State<B>, i: nat) {
    && i < |s.threads| == |s'.threads|
    && forall j {:trigger s'.threads[j]} :: 0 <= j < |s.threads| && j != i ==> s'.threads[j] == s.threads[j]
  }

  lemma StepOnlyMoves<B>(s: State<B>, i: nat)
    requires s.Running(i)
    ensures OnlyMoves(s, Step(s, i), i)
  {
    forall j {:trigger Step(s, i).threads[j]} | 0 <= j < |s.threads| && j != i
      ensures |Step(s, i).threads| == |s.threads| && Step(s, i).threads[j] == s.threads[j]
    {
      MoverAlone(s, Run(i), j);
    }
    if |s.threads| > 1 { MoverAlone(s, Run(i), if i == 0 then 1 else 0); } else { AloneSized(s, i); }
  }

  lemma AloneSized<B>(s: State<B>, i: nat)
    requires s.Running(i)
    ensures |Step(s, i).threads| == |s.threads|
  {
    if s.threads[i] == Idle {
    } else if Disturbs(s, i) {
      DisturbanceCounts(s, i);
    } else if Text(s.threads[i]).Some? {
      WriteQuiet(s, i);
    } else {
      ReadQuiet(s, i);
    }
  }

  lemma PlainSums<B>(s: State<B>, s': State<B>, i: nat)
    requires OnlyMoves(s, s', i)
    ensures Total(Opens(s')) - Total(Opens(s)) == Open(s'.threads[i]) - Open(s.threads[i])
    ensures Total(Pendings(s')) - Total(Pendings(s)) == Pending(s'.threads[i]) - Pending(s.threads[i])
  {
    TotalUpdate(Opens(s), Opens(s'), i);
    TotalUpdate(Pendings(s), Pendings(s'), i);
  }

  lemma StaleSum<B>(s: State<B>, s': State<B>, i: nat)
    requires OnlyMoves(s, s', i) && s'.writeIndex == s.writeIndex && s'.readIndex == s.readIndex
    ensures Total(Stales(s')) - Total(Stales(s)) == Stale(s', s'.threads[i]) - Stale(s, s.threads[i])
  {
    TotalUpdate(Stales(s), Stales(s'), i);
  }

  lemma LeftSum<B>(s: State<B>, s': State<B>, i: nat)
    requires OnlyMoves(s, s', i) && Undisturbed(s, s')
    ensures Total(Lefts(s')) - Total(Lefts(s)) == Left(s', s'.threads[i]) - Left(s, s.threads[i])
  {
    forall j {:trigger Lefts(s')[j]} | 0 <= j < |s.threads| && j != i ensures Lefts(s')[j] == Lefts(s)[j] {
      assert s'.threads[j] == s.threads[j];
      NumbersStay(s, s', s.threads[j]);
    }
    TotalUpdate(Lefts(s), Lefts(s'), i);
  }

  // What has been paid so far: steps by calls and disturbances, disturbances by indices won and claims
  // lost, lost claims by indices won, and indices won by calls.
  ghost predicate Balanced<B>(s: State<B>, m: nat, steps: nat, calls: nat, events: nat, lost: nat) {
    && |s.threads| == m && |s.slots| > 0
    && steps + Total(Lefts(s)) <= 4 * calls + 4 * m * events
    && events <= 3 * Wins(s) + 2 * lost + Total(Opens(s))
    && lost + Total(Stales(s)) <= m * Wins(s)
    && Wins(s) + Total(Pendings(s)) <= calls
  }

  lemma QuietBalanced<B>(s: State<B>, i: nat, m: nat, steps: nat, calls: nat, events: nat, lost: nat)
    requires Balanced(s, m, steps, calls, events, lost) && s.Running(i) && s.threads[i] != Idle && !Disturbs(s, i)
    ensures Balanced(Step(s, i), m, steps + 1, calls, events, if Loses(s, i) then lost + 1 else lost)
  {
    var s' := Step(s, i);
    StepOnlyMoves(s, i);
    if Text(s.threads[i]).Some? { WriteQuiet(s, i); } else { ReadQuiet(s, i); }
    PlainSums(s, s', i);
    StaleSum(s, s', i);
    LeftSum(s, s', i);
  }

  lemma EventPrice<B>(s: State<B>, s': State<B>, i: nat)
    requires |s'.threads| == |s.threads| && |s.slots| > 0 && |s'.slots| > 0 && i < |s.threads| && s.threads[i] != Idle
    ensures 1 + Total(Lefts(s')) <= Total(Lefts(s)) + 4 * |s.threads|
  {
    TotalWithin(Lefts(s'), 4);
    TotalAtLeast(Lefts(s), i);
    assert Left(s, s.threads[i]) >= 1;
  }

  lemma EventStales<B>(s: State<B>, i: nat)
    requires s.Running(i) && Disturbs(s, i)
    ensures |Step(s, i).threads| == |s.threads|
    ensures Total(Stales(Step(s, i))) <= Total(Stales(s)) + |s.threads| * (Wins(Step(s, i)) - Wins(s))
  {
    var s' := Step(s, i);
    DisturbanceCounts(s, i);
    if Wins(s') == Wins(s) {
      StepOnlyMoves(s, i);
      StaleSum(s, s', i);
    } else {
      TotalWithin(Stales(s'), 1);
      TotalAtLeast(Stales(s), |s.threads|);
    }
  }

  lemma EventBalanced<B>(s: State<B>, i: nat, m: nat, steps: nat, calls: nat, events: nat, lost: nat)
    requires Balanced(s, m, steps, calls, events, lost) && s.Running(i) && Disturbs(s, i)
    ensures Balanced(Step(s, i), m, steps + 1, calls, events + 1, lost)
  {
    var s' := Step(s, i);
    StepOnlyMoves(s, i);
    DisturbanceCounts(s, i);
    PlainSums(s, s', i);
    EventPrice(s, s', i);
    EventStales(s, i);
    assert 4 * m * (events + 1) == 4 * m * events + 4 * m;
    assert m * Wins(s') == m * Wins(s) + m * (Wins(s') - Wins(s));
  }

  lemma RunBalanced<B>(s: State<B>, i: nat, m: nat, steps: nat, calls: nat, events: nat, lost: nat)
    returns (events': nat, lost': nat)
    requires Balanced(s, m, steps, calls, events, lost) && Busy(s, i)
    ensures Balanced(Step(s, i), m, steps + 1, calls, events', lost')
  {
    if Disturbs(s, i) {
      EventBalanced(s, i, m, steps, calls, events, lost);
      events', lost' := events + 1, lost;
    } else {
      QuietBalanced(s, i, m, steps, calls, events, lost);
      events', lost' := events, if Loses(s, i) then lost + 1 else lost;
    }
  }

  lemma CallNumbers<B>(s: State<B>, i: nat, call: Call<B>)
    requires s.Running(i) && Idles(s, i)
    ensures var s' := Invoke(s, i, call);
      && OnlyMoves(s, s', i) && Undisturbed(s, s')
      && Left(s, s.threads[i]) == Open(s.threads[i]) == Pending(s.threads[i]) == Stale(s, s.threads[i]) == 0
      && Open(s'.threads[i]) == Stale(s', s'.threads[i]) == 0 && Pending(s'.threads[i]) == 1
  {
  }

  lemma CallBalanced<B>(s: State<B>, i: nat, call: Call<B>, m: nat, steps: nat, calls: nat, events: nat, lost: nat)
    requires Balanced(s, m, steps, calls, events, lost) && s.Running(i) && Idles(s, i)
    ensures Balanced(Invoke(s, i, call), m, steps, calls + 1, events, lost)
  {
    var s' := Invoke(s, i, call);
    CallNumbers(s, i, call);
    PlainSums(s, s', i);
    StaleSum(s, s', i);
    LeftSum(s, s', i);
  }

  lemma {:induction false} AllBalanced<B>(n: nat, room: nat, zero: B, m: nat, schedule: seq<Action<B>>)
    returns (events: nat, lost: nat)
    requires n > 0
    ensures Balanced(Exec(n, room, zero, m, schedule), m, StepsMade(n, room, zero, m, schedule),
      CallsMade(n, room, zero, m, schedule), events, lost)
  {
    if schedule == [] {
      events, lost := 0, 0;
      var s := Exec(n, room, zero, m, schedule);
      TotalZero(Lefts(s));
      TotalZero(Opens(s));
      TotalZero(Pendings(s));
      TotalZero(Stales(s));
    } else {
      var before, a := schedule[..|schedule| - 1], schedule[|schedule| - 1];
      var s, steps, calls := Exec(n, room, zero, m, before), StepsMade(n, room, zero, m, before),
        CallsMade(n, room, zero, m, before);
      events, lost := AllBalanced(n, room, zero, m, before);
      if a.Call? && s.Running(a.tid) && Idles(s, a.tid) {
        CallBalanced(s, a.tid, a.call, m, steps, calls, events, lost);
      } else if a.Run? && Busy(s, a.tid) {
        events, lost := RunBalanced(s, a.tid, m, steps, calls, events, lost);
      }
    }
  }

  // All disturbances are paid for by calls.
  lemma EventsPaid<B>(s: State<B>, m: nat, steps: nat, calls: nat, events: nat, lost: nat)
    requires Balanced(s, m, steps, calls, events, lost)
    ensures events <= 3 * calls + 2 * (m * calls) && steps <= 4 * calls + 4 * m * events
  {
    TotalBelow(Opens(s), Pendings(s));
    TotalAtLeast(Lefts(s), m);
    TotalAtLeast(Stales(s), m);
    TotalAtLeast(Pendings(s), m);
    Monotone(m, Wins(s), calls);
  }

  /** However the threads are scheduled, they make no more than 4 * (2m + 1) * (m + 1) steps for each call
      made: no call is retried without end. */
  lemma LockFree<B>(n: nat, room: nat, zero: B, m: nat, schedule: seq<Action<B>>)
    requires n > 0
    ensures StepsMade(n, room, zero, m, schedule) <=
      4 * (2 * m + 1) * (m + 1) * CallsMade(n, room, zero, m, schedule)
  {
    var calls := CallsMade(n, room, zero, m, schedule);
    var events, lost := AllBalanced(n, room, zero, m, schedule);
    EventsPaid(Exec(n, room, zero, m, schedule), m, StepsMade(n, room, zero, m, schedule), calls, events, lost);
    Price(m, calls, events);
  }

  lemma Price(m: nat, calls: nat, events: nat)
    requires events <= 3 * calls + 2 * (m * calls)
    ensures 4 * calls + 4 * m * events <= 4 * (2 * m + 1) * (m + 1) * calls
  {
    Monotone(4 * m, events, 3 * calls + 2 * (m * calls));
    Factors(m, calls);
  }

  lemma Factors(m: nat, calls: nat)
    ensures 4 * calls + 4 * m * (3 * calls + 2 * (m * calls)) == 4 * (2 * m + 1) * (m + 1) * calls
  {
    var x := m * calls;
    assert 4 * m * (3 * calls + 2 * x) == 12 * x + 8 * (m * x);
    assert (2 * m + 1) * (m + 1) == 2 * (m * m) + 3 * m + 1;
    assert (m * m) * calls == m * x;
  }
}

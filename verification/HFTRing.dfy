/** Bitwise conjunction of numbers, and the mask that stands for a remainder. */
module Masks {

  function And(x: nat, y: nat): (z: nat)
    ensures z <= x && z <= y
  {
    if x == 0 || y == 0 then 0
    else (if x % 2 == 1 && y % 2 == 1 then 1 else 0) + 2 * And(x / 2, y / 2)
  }

  predicate isPowerOfTwo(n: nat) {
    n > 0 && And(n, n - 1) == 0
  }

  lemma {:induction false} AndSelf(x: nat)
    ensures And(x, x) == x
  {
    if x > 0 { AndSelf(x / 2); }
  }

  lemma Halves(x: nat, m: nat)
    requires m >= 1
    ensures x % (2 * m) == x % 2 + 2 * ((x / 2) % m)
  {
    var q, r := (x / 2) / m, (x / 2) % m;
    assert x / 2 == q * m + r;
    assert x == 2 * (q * m) + 2 * r + x % 2;
    Remainder(x, q, 2 * m, 2 * r + x % 2);
  }

  lemma Remainder(x: nat, q: nat, d: nat, r: nat)
    requires d >= 1 && r < d && x == q * d + r
    ensures x % d == r
  {
    var p := x / d;
    assert x == p * d + x % d;
    if p < q { Product(p + 1, q, d); }
    if q < p { Product(q + 1, p, d); }
  }

  lemma Product(a: nat, b: nat, d: nat)
    requires a <= b
    ensures a * d <= b * d
  {
  }

  // For a power of two, masking with its predecessor takes the remainder.
  lemma {:induction false} MaskIsModulo(x: nat, n: nat)
    requires isPowerOfTwo(n)
    ensures And(x, n - 1) == x % n
    decreases n
  {
    var m := n / 2;
    if n % 2 == 1 {
      AndSelf(m);
      assert (n - 1) / 2 == m;
      assert n == 1;
    } else {
      assert (n - 1) / 2 == m - 1 && (n - 1) % 2 == 1;
      assert And(n, n - 1) == 2 * And(m, m - 1);
      MaskIsModulo(x / 2, m);
      Halves(x, m);
      if x == 0 { assert 0 % n == 0; }
    }
  }

  ghost predicate PowerOfTwo(n: nat) {
    n == 1 || (n > 1 && n % 2 == 0 && PowerOfTwo(n / 2))
  }

  lemma {:induction false} PowerOfTwoMeans(n: nat)
    ensures isPowerOfTwo(n) <==> PowerOfTwo(n)
    decreases n
  {
    if n > 1 {
      var m := n / 2;
      if n % 2 == 1 {
        AndSelf(m);
        assert (n - 1) / 2 == m;
      } else {
        assert (n - 1) / 2 == m - 1;
        PowerOfTwoMeans(m);
      }
    }
  }
}

/** The single-producer, single-consumer ring: two sequence counters that only their own side
    advances, and a state word in every slot. */
module HFTRings {
  import opened Masks

  datatype SlotState = Empty | Writing | Ready | Reading

  // The fixed-size fields other than the sequence number and the timestamp are the body.
  datatype Message<B> = Message(sequence: nat, timestamp: int, body: B)

  datatype Slot<B> = Slot(state: SlotState, msg: Message<B>)

  datatype Producer<B> =
    | PIdle
    | PLoadWrite(msg: Message<B>)
    | PLoadRead(msg: Message<B>, seqno: nat)
    | PClaim(msg: Message<B>, seqno: nat)
    | PCopy(msg: Message<B>, seqno: nat)
    | PReady(seqno: nat)
    | PAdvance(seqno: nat)

  datatype Consumer =
    | CIdle
    | CLoadRead
    | CLoadWrite(seqno: nat)
    | CCheck(seqno: nat)
    | CClaim(seqno: nat)
    | CClear(seqno: nat)
    | CAdvance(seqno: nat)

  datatype Outcome = NothingYet | Full | Published | LostSlot | NothingReady | Consumed

  // The ring and its two sides; what was copied into slots, and what was found in a slot when it
  // was claimed for reading, are kept for the proof. `outcome` is how the last call of a side ended.
  datatype State<B> = State(
    slots: seq<Slot<B>>, write: nat, read: nat, producer: Producer<B>, consumer: Consumer,
    produced: Outcome, consumed: Outcome, written: seq<Message<B>>, claimed: seq<Message<B>>)
  {
    predicate Sized() { isPowerOfTwo(|slots|) }

    // seq & mask
    function At(seqno: nat): (k: nat)
      requires Sized()
      ensures k == seqno % |slots| && k < |slots|
    {
      MaskIsModulo(seqno, |slots|);
      And(seqno, |slots| - 1)
    }

    function Put(k: nat, slot: Slot<B>): State<B>
      requires k < |slots|
    {
      this.(slots := slots[k := slot])
    }
  }

  function Init<B>(slotCount: nat, zero: Message<B>): State<B> {
    State(seq(slotCount, k => Slot(Empty, zero)), 0, 0, PIdle, CIdle, NothingYet, NothingYet, [], [])
  }

  // The next atomic step of the producer; now is the clock.
  function StepProducer<B>(s: State<B>, now: int): State<B>
    requires s.Sized()
  {
    match s.producer
    case PIdle => s
    case PLoadWrite(msg) => s.(producer := PLoadRead(msg, s.write))
    case PLoadRead(msg, w) =>
      if w - s.read >= |s.slots| then s.(producer := PIdle, produced := Full) else s.(producer := PClaim(msg, w))
    case PClaim(msg, w) =>
      var slot := s.slots[s.At(w)];
      if slot.state != Empty then s.(producer := PIdle, produced := LostSlot)
      else s.Put(s.At(w), slot.(state := Writing)).(producer := PCopy(msg, w))
    case PCopy(msg, w) =>
      var m := Message(w, if msg.timestamp == 0 then now else msg.timestamp, msg.body);
      s.Put(s.At(w), s.slots[s.At(w)].(msg := m)).(producer := PReady(w), written := s.written + [m])
    case PReady(w) => s.Put(s.At(w), s.slots[s.At(w)].(state := Ready)).(producer := PAdvance(w))
    case PAdvance(w) => s.(write := s.write + 1, producer := PIdle, produced := Published)
  }

  function StepConsumer<B>(s: State<B>): State<B>
    requires s.Sized()
  {
    match s.consumer
    case CIdle => s
    case CLoadRead => s.(consumer := CLoadWrite(s.read))
    case CLoadWrite(r) =>
      if r >= s.write then s.(consumer := CIdle, consumed := NothingReady) else s.(consumer := CCheck(r))
    case CCheck(r) =>
      if s.slots[s.At(r)].state != Ready then s.(consumer := CIdle, consumed := LostSlot) else s.(consumer := CClaim(r))
    case CClaim(r) =>
      var slot := s.slots[s.At(r)];
      if slot.state != Ready then s.(consumer := CIdle, consumed := LostSlot)
      else s.Put(s.At(r), slot.(state := Reading)).(consumer := CClear(r), claimed := s.claimed + [slot.msg])
    case CClear(r) => s.Put(s.At(r), s.slots[s.At(r)].(state := Empty)).(consumer := CAdvance(r))
    case CAdvance(r) => s.(read := s.read + 1, consumer := CIdle, consumed := Consumed)
  }

  datatype Action<B> = Publish(msg: Message<B>) | Consume | Produce(now: int) | Take

  // A side that is busy takes no new call.
  function Apply<B>(s: State<B>, a: Action<B>): State<B>
    requires s.Sized()
    ensures Apply(s, a).Sized() && |Apply(s, a).slots| == |s.slots|
  {
    match a
    case Publish(msg) => if s.producer.PIdle? then s.(producer := PLoadWrite(msg)) else s
    case Consume => if s.consumer.CIdle? then s.(consumer := CLoadRead) else s
    case Produce(now) => StepProducer(s, now)
    case Take => StepConsumer(s)
  }

  function Exec<B>(s: State<B>, run: seq<Action<B>>): (r: State<B>)
    requires s.Sized()
    ensures r.Sized() && |r.slots| == |s.slots|
  {
    if run == [] then s else Apply(Exec(s, run[..|run| - 1]), run[|run| - 1])
  }

  // ---- The invariant ----------------------------------------------------------------

  ghost predicate Counters<B>(s: State<B>) {
    && s.read <= s.write <= s.read + |s.slots|
    && (match s.producer
        case PIdle => true
        case PLoadWrite(_) => true
        case PLoadRead(_, w) => w == s.write
        case PClaim(_, w) => w == s.write < s.read + |s.slots|
        case PCopy(_, w) => w == s.write < s.read + |s.slots|
        case PReady(w) => w == s.write < s.read + |s.slots|
        case PAdvance(w) => w == s.write < s.read + |s.slots|)
    && (match s.consumer
        case CIdle => true
        case CLoadRead => true
        case CLoadWrite(r) => r == s.read
        case CCheck(r) => r == s.read < s.write
        case CClaim(r) => r == s.read < s.write
        case CClear(r) => r == s.read < s.write
        case CAdvance(r) => r == s.read < s.write)
  }

  // The state that the slot of a sequence number in the window must have.
  ghost function Expected<B>(s: State<B>, i: nat): (e: SlotState) {
    if i < s.write then
      if i == s.read && s.consumer.CClear? then Reading
      else if i == s.read && s.consumer.CAdvance? then Empty
      else Ready
    else if i > s.write then Empty
    else if s.producer.PCopy? || s.producer.PReady? then Writing
    else if s.producer.PAdvance? then Ready
    else Empty
  }

  ghost function Copied<B>(s: State<B>): (n: nat) {
    if s.producer.PReady? || s.producer.PAdvance? then s.write + 1 else s.write
  }

  ghost function Taken<B>(s: State<B>): (n: nat) {
    if s.consumer.CClear? || s.consumer.CAdvance? then s.read + 1 else s.read
  }

  ghost predicate SlotRight<B>(s: State<B>, i: nat)
    requires s.Sized() && |s.written| == Copied(s)
  {
    var slot := s.slots[s.At(i)];
    slot.state == Expected(s, i) && (i < Copied(s) ==> slot.msg == s.written[i])
  }

  ghost predicate Inv<B>(s: State<B>) {
    && s.Sized() && Counters(s)
    && |s.written| == Copied(s) && |s.claimed| == Taken(s) <= |s.written|
    && (forall i: nat {:trigger SlotRight(s, i)} :: s.read <= i < s.read + |s.slots| ==> SlotRight(s, i))
    && (forall k {:trigger s.written[k]} :: 0 <= k < |s.written| ==> s.written[k].sequence == k)
    && (forall k {:trigger s.claimed[k]} :: 0 <= k < |s.claimed| ==> s.claimed[k] == s.written[k])
    && s.produced != LostSlot && s.consumed != LostSlot
  }

  // Sequence numbers of one window use different slots.
  lemma Apart(i: nat, j: nat, n: nat)
    requires n > 0 && i < j < i + n
    ensures i % n != j % n
  {
    if i % n == j % n {
      var p, q := i / n, j / n;
      assert i == p * n + i % n && j == q * n + j % n;
      assert (q - p) * n == j - i;
      Multiple(q - p, n);
    }
  }

  lemma Multiple(k: int, n: nat)
    requires n > 0
    ensures !(0 < k * n < n)
  {
  }

  lemma SameSlot(i: nat, n: nat)
    requires n > 0
    ensures (i + n) % n == i % n
  {
    Remainder(i + n, i / n + 1, n, i % n);
  }

  lemma InitInv<B>(slotCount: nat, zero: Message<B>)
    requires isPowerOfTwo(slotCount)
    ensures Inv(Init(slotCount, zero))
  {
    var s := Init(slotCount, zero);
    forall i: nat {:trigger SlotRight(s, i)} | s.read <= i < s.read + |s.slots| ensures SlotRight(s, i) {
    }
  }

  // One slot of the window changes as expected, and the others stay.
  lemma OneSlot<B>(s: State<B>, t: State<B>, c: nat)
    requires Inv(s) && t.Sized() && |t.slots| == |s.slots| && |t.written| == Copied(t) && t.read == s.read
    requires s.read <= c < s.read + |s.slots| && t.slots == s.slots[s.At(c) := t.slots[s.At(c)]] && SlotRight(t, c)
    requires Copied(s) <= Copied(t) && t.written[..|s.written|] == s.written
      && (Copied(t) > Copied(s) ==> Copied(s) == c)
    requires forall i: nat {:trigger Expected(t, i)} :: i != c ==> Expected(t, i) == Expected(s, i)
    requires forall i: nat {:trigger Expected(t, i)} :: i != c ==> (i < Copied(t) <==> i < Copied(s))
    ensures forall i: nat {:trigger SlotRight(t, i)} :: t.read <= i < t.read + |t.slots| ==> SlotRight(t, i)
  {
    forall i: nat {:trigger SlotRight(t, i)} | t.read <= i < t.read + |t.slots| ensures SlotRight(t, i) {
      if i != c {
        assert SlotRight(s, i);
        Apart(if i < c then i else c, if i < c then c else i, |s.slots|);
        assert Expected(t, i) == Expected(s, i);
        if i < Copied(s) { assert t.written[..|s.written|][i] == s.written[i]; }
      }
    }
  }

  lemma StepProducerKeeps<B>(s: State<B>, now: int)
    requires Inv(s)
    ensures Inv(StepProducer(s, now))
  {
    var t := StepProducer(s, now);
    match s.producer
    case PIdle =>
    case PLoadWrite(msg) => SameSlots(s, t);
    case PLoadRead(msg, w) => SameSlots(s, t);
    case PClaim(msg, w) =>
      assert SlotRight(s, w);
      OneSlot(s, t, w);
    case PCopy(msg, w) => CopyKeeps(s, now);
    case PReady(w) =>
      assert SlotRight(s, w);
      OneSlot(s, t, w);
    case PAdvance(w) => SameSlots(s, t);
  }

  lemma CopyKeeps<B>(s: State<B>, now: int)
    requires Inv(s) && s.producer.PCopy?
    ensures Inv(StepProducer(s, now))
  {
    assert SlotRight(s, s.producer.seqno);
    OneSlot(s, StepProducer(s, now), s.producer.seqno);
  }

  // Nothing is written; the expectations stay.
  lemma SameSlots<B>(s: State<B>, t: State<B>)
    requires Inv(s) && t.slots == s.slots && t.written == s.written && |t.written| == Copied(t) == Copied(s)
      && t.read == s.read
    requires forall i: nat {:trigger Expected(t, i)} :: Expected(t, i) == Expected(s, i)
    ensures t.Sized() && forall i: nat {:trigger SlotRight(t, i)} :: t.read <= i < t.read + |t.slots| ==>
      SlotRight(t, i)
  {
    forall i: nat {:trigger SlotRight(t, i)} | t.read <= i < t.read + |t.slots| ensures SlotRight(t, i) {
      assert SlotRight(s, i) && Expected(t, i) == Expected(s, i);
    }
  }

  lemma StepConsumerKeeps<B>(s: State<B>)
    requires Inv(s)
    ensures Inv(StepConsumer(s))
  {
    var t := StepConsumer(s);
    match s.consumer
    case CIdle =>
    case CLoadRead => SameSlots(s, t);
    case CLoadWrite(r) => SameSlots(s, t);
    case CCheck(r) =>
      assert SlotRight(s, r);
      SameSlots(s, t);
    case CClaim(r) =>
      assert SlotRight(s, r);
      OneSlot(s, t, r);
    case CClear(r) =>
      assert SlotRight(s, r);
      OneSlot(s, t, r);
    case CAdvance(r) => WindowMoves(s, t);
  }

  // The slot just emptied becomes the last of the window.
  lemma WindowMoves<B>(s: State<B>, t: State<B>)
    requires Inv(s) && s.consumer.CAdvance? && t == StepConsumer(s)
    ensures forall i: nat {:trigger SlotRight(t, i)} :: t.read <= i < t.read + |t.slots| ==> SlotRight(t, i)
  {
    forall i: nat {:trigger SlotRight(t, i)} | t.read <= i < t.read + |t.slots| ensures SlotRight(t, i) {
      if i == s.read + |s.slots| {
        assert SlotRight(s, s.read);
        SameSlot(s.read, |s.slots|);
      } else {
        assert SlotRight(s, i);
      }
    }
  }

  lemma ApplyKeeps<B>(s: State<B>, a: Action<B>)
    requires Inv(s)
    ensures Inv(Apply(s, a))
  {
    match a
    case Publish(msg) => SameSlots(s, Apply(s, a));
    case Consume => SameSlots(s, Apply(s, a));
    case Produce(now) => StepProducerKeeps(s, now);
    case Take => StepConsumerKeeps(s);
  }

  // In every run the k-th message claimed is the k-th message published, with sequence number k;
  // the counters stay within a window, and no side ever loses a slot.
  lemma {:induction false} RunsAreSafe<B>(slotCount: nat, zero: Message<B>, run: seq<Action<B>>)
    requires isPowerOfTwo(slotCount)
    ensures var s := Exec(Init(slotCount, zero), run);
      && Inv(s) && s.read <= s.write <= s.read + slotCount && |s.slots| == slotCount
      && s.claimed <= s.written
           && (forall k {:trigger s.claimed[k]} :: 0 <= k < |s.claimed| ==> s.claimed[k].sequence == k)
      && s.produced != LostSlot && s.consumed != LostSlot
    decreases |run|
  {
    if run == [] {
      InitInv(slotCount, zero);
    } else {
      var s := Exec(Init(slotCount, zero), run[..|run| - 1]);
      RunsAreSafe(slotCount, zero, run[..|run| - 1]);
      ApplyKeeps(s, run[|run| - 1]);
      InvMeans(Apply(s, run[|run| - 1]));
    }
  }

  lemma InvMeans<B>(s: State<B>)
    requires Inv(s)
    ensures s.read <= s.write <= s.read + |s.slots| && s.claimed <= s.written
    ensures forall k {:trigger s.claimed[k]} :: 0 <= k < |s.claimed| ==> s.claimed[k].sequence == k
  {
    assert s.claimed == s.written[..|s.claimed|];
    forall k {:trigger s.claimed[k]} | 0 <= k < |s.claimed| ensures s.claimed[k].sequence == k {
      assert s.claimed[k] == s.written[k];
    }
  }

  // A publish is turned away exactly when all slots are taken at its load of the read counter, and a
  // consume exactly when nothing is left at its load of the write counter.
  lemma AnswersMean<B>(s: State<B>, now: int)
    requires Inv(s)
    ensures s.producer.PLoadRead? ==> (StepProducer(s, now).producer.PIdle? <==> s.write == s.read + |s.slots|)
    ensures s.producer.PClaim? ==> StepProducer(s, now).producer.PCopy?
    ensures s.consumer.CLoadWrite? ==> (StepConsumer(s).consumer.CIdle? <==> s.read == s.write)
    ensures s.consumer.CCheck? ==> StepConsumer(s).consumer.CClaim?
    ensures s.consumer.CClaim? ==> StepConsumer(s).consumer.CClear?
  {
    assert SlotRight(s, s.read);
    if s.producer.PClaim? { assert SlotRight(s, s.write); }
  }

  // ---- What the calls of a run get --------------------------------------------------

  // The messages passed to Publish while the producer was idle, one after another.
  function Asked<B>(init: State<B>, run: seq<Action<B>>): (msgs: seq<Message<B>>)
    requires init.Sized()
  {
    if run == [] then []
    else
      var before, last := run[..|run| - 1], run[|run| - 1];
      Asked(init, before) + if last.Publish? && Exec(init, before).producer.PIdle? then [last.msg] else []
  }

  // How these calls ended, as the producer became idle again.
  function Ended<B>(init: State<B>, run: seq<Action<B>>): (outcomes: seq<Outcome>)
    requires init.Sized()
  {
    if run == [] then []
    else
      var before := run[..|run| - 1];
      var s, t := Exec(init, before), Exec(init, run);
      Ended(init, before) + if !s.producer.PIdle? && t.producer.PIdle? then [t.produced] else []
  }

  // The clock readings at the copying steps.
  function Clocks<B>(init: State<B>, run: seq<Action<B>>): (clocks: seq<int>)
    requires init.Sized()
  {
    if run == [] then []
    else
      var before, last := run[..|run| - 1], run[|run| - 1];
      Clocks(init, before) + if last.Produce? && Exec(init, before).producer.PCopy? then [last.now] else []
  }

  // The messages of the calls that were not refused.
  function Passed<B>(asked: seq<Message<B>>, ended: seq<Outcome>): (msgs: seq<Message<B>>)
    requires |ended| <= |asked|
  {
    if ended == [] then []
    else
      var n := |ended| - 1;
      Passed(asked, ended[..n]) + if ended[n] == Published then [asked[n]] else []
  }

  // The number of Consume calls made while the consumer was idle.
  function Wanted<B>(init: State<B>, run: seq<Action<B>>): (calls: nat)
    requires init.Sized()
  {
    if run == [] then 0
    else
      var before, last := run[..|run| - 1], run[|run| - 1];
      Wanted(init, before) + if last.Consume? && Exec(init, before).consumer.CIdle? then 1 else 0
  }

  // How these calls ended, as the consumer became idle again.
  function Served<B>(init: State<B>, run: seq<Action<B>>): (outcomes: seq<Outcome>)
    requires init.Sized()
  {
    if run == [] then []
    else
      var before := run[..|run| - 1];
      var s, t := Exec(init, before), Exec(init, run);
      Served(init, before) + if !s.consumer.CIdle? && t.consumer.CIdle? then [t.consumed] else []
  }

  function CountOf(outcomes: seq<Outcome>, o: Outcome): (n: nat) {
    if outcomes == [] then 0
    else CountOf(outcomes[..|outcomes| - 1], o) + if outcomes[|outcomes| - 1] == o then 1 else 0
  }

  // The message as Publish stamps it.
  function Stamped<B>(msg: Message<B>, seqno: nat, clock: int): (m: Message<B>) {
    Message(seqno, if msg.timestamp == 0 then clock else msg.timestamp, msg.body)
  }

  function Held<B>(p: Producer<B>): (msg: seq<Message<B>>) {
    match p
    case PLoadWrite(msg) => [msg]
    case PLoadRead(msg, _) => [msg]
    case PClaim(msg, _) => [msg]
    case PCopy(msg, _) => [msg]
    case _ => []
  }

  // What has been copied is what the calls not refused asked for, and perhaps the call under way.
  ghost function Sent<B>(p: Producer<B>, asked: seq<Message<B>>, ended: seq<Outcome>): (msgs: seq<Message<B>>)
    requires |asked| == |ended| + if p.PIdle? then 0 else 1
  {
    Passed(asked, ended) + if p.PReady? || p.PAdvance? then [asked[|ended|]] else []
  }

  ghost predicate ProducerTally<B>(s: State<B>, asked: seq<Message<B>>, ended: seq<Outcome>, clocks: seq<int>) {
    && |asked| == |ended| + (if s.producer.PIdle? then 0 else 1)
    && (forall j {:trigger ended[j]} :: 0 <= j < |ended| ==> ended[j] == Full || ended[j] == Published)
    && (forall msg {:trigger msg in Held(s.producer)} :: msg in Held(s.producer) ==> msg == asked[|ended|])
    && |Passed(asked, ended)| == s.write
    && var sent := Sent(s.producer, asked, ended);
       && |sent| == |s.written| == |clocks|
       && forall k {:trigger s.written[k]} :: 0 <= k < |sent| ==> s.written[k] == Stamped(sent[k], k, clocks[k])
  }

  lemma PassedMore<B>(asked: seq<Message<B>>, ended: seq<Outcome>, more: seq<Message<B>>, o: Outcome)
    requires |ended| < |asked|
    ensures Passed(asked + more, ended) == Passed(asked, ended)
    ensures Passed(asked, ended + [o]) == Passed(asked, ended) + if o == Published then [asked[|ended|]] else []
    decreases |ended|
  {
    assert (ended + [o])[..|ended|] == ended;
    PassedWider(asked, ended, more);
  }

  lemma {:induction false} PassedWider<B>(asked: seq<Message<B>>, ended: seq<Outcome>, more: seq<Message<B>>)
    requires |ended| <= |asked|
    ensures Passed(asked + more, ended) == Passed(asked, ended)
    decreases |ended|
  {
    if ended != [] { PassedWider(asked, ended[..|ended| - 1], more); }
  }

  lemma PublishTallied<B>(s: State<B>, msg: Message<B>, asked: seq<Message<B>>, ended: seq<Outcome>, clocks: seq<int>)
    requires Inv(s) && ProducerTally(s, asked, ended, clocks) && s.producer.PIdle?
    ensures ProducerTally(Apply(s, Publish(msg)), asked + [msg], ended, clocks)
  {
    PassedWider(asked, ended, [msg]);
  }

  lemma ProduceTallied<B>(s: State<B>, now: int, asked: seq<Message<B>>, ended: seq<Outcome>, clocks: seq<int>)
    requires Inv(s) && ProducerTally(s, asked, ended, clocks) && !s.producer.PIdle?
    ensures var t := StepProducer(s, now);
      ProducerTally(t, asked, ended + (if t.producer.PIdle? then [t.produced] else []),
        clocks + (if s.producer.PCopy? then [now] else []))
  {
    var t := StepProducer(s, now);
    assert ended + [] == ended && clocks + [] == clocks;
    AnswersMean(s, now);
    PassedMore(asked, ended, [], t.produced);
    if s.producer.PCopy? { assert s.producer.msg in Held(s.producer); }
    if Held(t.producer) != [] { assert Held(s.producer) == Held(t.producer); }
  }

  ghost predicate ConsumerTally<B>(s: State<B>, wanted: nat, served: seq<Outcome>) {
    && wanted == |served| + (if s.consumer.CIdle? then 0 else 1)
    && (forall j {:trigger served[j]} :: 0 <= j < |served| ==> served[j] == NothingReady || served[j] == Consumed)
    && CountOf(served, Consumed) == s.read
  }

  lemma TakeTallied<B>(s: State<B>, wanted: nat, served: seq<Outcome>)
    requires Inv(s) && ConsumerTally(s, wanted, served) && !s.consumer.CIdle?
    ensures var t := StepConsumer(s);
      ConsumerTally(t, wanted, served + if t.consumer.CIdle? then [t.consumed] else [])
  {
    var t := StepConsumer(s);
    assert served + [] == served;
    assert (served + [t.consumed])[..|served|] == served;
    AnswersMean(s, 0);
  }

  /** In every run the messages copied into slots are those passed to the Publish calls that were not
      refused, in this order, each with its number and, if it had none, the clock reading as timestamp.
      A call ends as published exactly when it advances the write counter, and any other as full. */
  lemma {:induction false} PublishesMean<B>(slotCount: nat, zero: Message<B>, run: seq<Action<B>>)
    requires isPowerOfTwo(slotCount)
    ensures var init := Init(slotCount, zero);
      ProducerTally(Exec(init, run), Asked(init, run), Ended(init, run), Clocks(init, run))
    decreases |run|
  {
    var init := Init(slotCount, zero);
    if run != [] {
      var before, a := run[..|run| - 1], run[|run| - 1];
      var s, asked, ended, clocks := Exec(init, before), Asked(init, before), Ended(init, before), Clocks(init, before);
      PublishesMean(slotCount, zero, before);
      RunsAreSafe(slotCount, zero, before);
      assert asked + [] == asked && ended + [] == ended && clocks + [] == clocks;
      if a.Publish? && s.producer.PIdle? {
        PublishTallied(s, a.msg, asked, ended, clocks);
      } else if a.Produce? && !s.producer.PIdle? {
        ProduceTallied(s, a.now, asked, ended, clocks);
      }
    }
  }

  /** A consume ends as consumed exactly when it advances the read counter, and any other as nothing
      ready. */
  lemma {:induction false} ConsumesMean<B>(slotCount: nat, zero: Message<B>, run: seq<Action<B>>)
    requires isPowerOfTwo(slotCount)
    ensures var init := Init(slotCount, zero);
      ConsumerTally(Exec(init, run), Wanted(init, run), Served(init, run))
    decreases |run|
  {
    var init := Init(slotCount, zero);
    if run != [] {
      var before, a := run[..|run| - 1], run[|run| - 1];
      var s, wanted, served := Exec(init, before), Wanted(init, before), Served(init, before);
      ConsumesMean(slotCount, zero, before);
      RunsAreSafe(slotCount, zero, before);
      assert served + [] == served;
      if a.Take? && !s.consumer.CIdle? { TakeTallied(s, wanted, served); }
    }
  }

  // ---- Refusals -------------------------------------------------------------------------

  // While it served its rth call, the producer found the ring full.
  ghost predicate WasFull<B>(init: State<B>, run: seq<Action<B>>, r: nat)
    requires init.Sized()
  {
    exists j: nat {:trigger run[..j]} ::
      && j < |run| && |Ended(init, run[..j])| == r
      && var s := Exec(init, run[..j]); s.producer.PLoadRead? && s.write == s.read + |s.slots|
  }

  ghost predicate WasEmpty<B>(init: State<B>, run: seq<Action<B>>, r: nat)
    requires init.Sized()
  {
    exists j: nat {:trigger run[..j]} ::
      && j < |run| && |Served(init, run[..j])| == r
      && var s := Exec(init, run[..j]); s.consumer.CLoadWrite? && s.read == s.write
  }

  lemma FullStill<B>(init: State<B>, run: seq<Action<B>>, r: nat)
    requires init.Sized() && run != [] && WasFull(init, run[..|run| - 1], r)
    ensures WasFull(init, run, r)
  {
    var before := run[..|run| - 1];
    var j: nat :| j < |before| && |Ended(init, before[..j])| == r
                  && var s := Exec(init, before[..j]); s.producer.PLoadRead? && s.write == s.read + |s.slots|;
    assert before[..j] == run[..j];
  }

  lemma EmptyStill<B>(init: State<B>, run: seq<Action<B>>, r: nat)
    requires init.Sized() && run != [] && WasEmpty(init, run[..|run| - 1], r)
    ensures WasEmpty(init, run, r)
  {
    var before := run[..|run| - 1];
    var j: nat :| j < |before| && |Served(init, before[..j])| == r
                  && var s := Exec(init, before[..j]); s.consumer.CLoadWrite? && s.read == s.write;
    assert before[..j] == run[..j];
  }

  lemma ProducerRefused<B>(s: State<B>, a: Action<B>)
    requires Inv(s) && !s.producer.PIdle? && Apply(s, a).producer.PIdle?
    ensures Apply(s, a).produced == Full ==> s.producer.PLoadRead? && s.write == s.read + |s.slots|
  {
    if a.Produce? { AnswersMean(s, a.now); }
  }

  lemma ConsumerRefused<B>(s: State<B>, a: Action<B>)
    requires Inv(s) && !s.consumer.CIdle? && Apply(s, a).consumer.CIdle?
    ensures Apply(s, a).consumed == NothingReady ==> s.consumer.CLoadWrite? && s.read == s.write
  {
    AnswersMean(s, 0);
  }

  /** A call that ends as full found all slots taken at a moment of its own. */
  lemma {:induction false} FullMeans<B>(slotCount: nat, zero: Message<B>, run: seq<Action<B>>, r: nat)
    requires isPowerOfTwo(slotCount)
    requires r < |Ended(Init(slotCount, zero), run)| && Ended(Init(slotCount, zero), run)[r] == Full
    ensures WasFull(Init(slotCount, zero), run, r)
    decreases |run|
  {
    var init := Init(slotCount, zero);
    var before, a := run[..|run| - 1], run[|run| - 1];
    if r < |Ended(init, before)| {
      FullMeans(slotCount, zero, before, r);
      FullStill(init, run, r);
    } else {
      RunsAreSafe(slotCount, zero, before);
      ProducerRefused(Exec(init, before), a);
      assert run[..|before|] == before;
    }
  }

  /** A call that ends as nothing ready found no message at a moment of its own. */
  lemma {:induction false} EmptyMeans<B>(slotCount: nat, zero: Message<B>, run: seq<Action<B>>, r: nat)
    requires isPowerOfTwo(slotCount)
    requires r < |Served(Init(slotCount, zero), run)| && Served(Init(slotCount, zero), run)[r] == NothingReady
    ensures WasEmpty(Init(slotCount, zero), run, r)
    decreases |run|
  {
    var init := Init(slotCount, zero);
    var before, a := run[..|run| - 1], run[|run| - 1];
    if r < |Served(init, before)| {
      EmptyMeans(slotCount, zero, before, r);
      EmptyStill(init, run, r);
    } else {
      RunsAreSafe(slotCount, zero, before);
      ConsumerRefused(Exec(init, before), a);
      assert run[..|before|] == before;
    }
  }

  // ---- How many steps calls take ---------------------------------------------------------

  // The steps left to a call, whatever the other side does.
  function ProducerLeft<B>(p: Producer<B>): (steps: nat) {
    match p
    case PIdle => 0
    case PLoadWrite(_) => 6
    case PLoadRead(_, _) => 5
    case PClaim(_, _) => 4
    case PCopy(_, _) => 3
    case PReady(_) => 2
    case PAdvance(_) => 1
  }

  function ConsumerLeft(c: Consumer): (steps: nat) {
    match c
    case CIdle => 0
    case CLoadRead => 6
    case CLoadWrite(_) => 5
    case CCheck(_) => 4
    case CClaim(_) => 3
    case CClear(_) => 2
    case CAdvance(_) => 1
  }

  // The steps that both sides make for their calls.
  function StepsMade<B>(init: State<B>, run: seq<Action<B>>): (steps: nat)
    requires init.Sized()
  {
    if run == [] then 0
    else
      var before, last := run[..|run| - 1], run[|run| - 1];
      var s := Exec(init, before);
      StepsMade(init, before)
      + if (last.Produce? && !s.producer.PIdle?) || (last.Take? && !s.consumer.CIdle?) then 1 else 0
  }

  /** Every call of either side ends after at most six steps of its own, whatever the other side does. */
  lemma {:induction false} WaitFree<B>(init: State<B>, run: seq<Action<B>>)
    requires init.Sized() && init.producer.PIdle? && init.consumer.CIdle?
    ensures var s := Exec(init, run);
      StepsMade(init, run) + ProducerLeft(s.producer) + ConsumerLeft(s.consumer)
        <= 6 * (|Asked(init, run)| + Wanted(init, run))
    decreases |run|
  {
    if run != [] {
      WaitFree(init, run[..|run| - 1]);
      StepCounts(Exec(init, run[..|run| - 1]), run[|run| - 1]);
    }
  }

  lemma StepCounts<B>(s: State<B>, a: Action<B>)
    requires s.Sized()
    ensures var produced, published := a.Produce? && !s.producer.PIdle?, a.Publish? && s.producer.PIdle?;
      (if produced then 1 else 0) + ProducerLeft(Apply(s, a).producer)
        <= ProducerLeft(s.producer) + (if published then 6 else 0)
    ensures var taken, asked := a.Take? && !s.consumer.CIdle?, a.Consume? && s.consumer.CIdle?;
      (if taken then 1 else 0) + ConsumerLeft(Apply(s, a).consumer)
        <= ConsumerLeft(s.consumer) + (if asked then 6 else 0)
  {
  }
}

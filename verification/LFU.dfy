/** The policy of a least-frequently-used cache: how often and when last each key was accessed. */
module LFUPolicy {

  datatype Use<V> = Use(value: V, freq: int, last: nat)

  type Cache<K, V> = map<K, Use<V>>

  // k was accessed less often than j, or equally often and longer ago.
  ghost predicate Before<K, V>(m: Cache<K, V>, k: K, j: K)
    requires k in m && j in m
  {
    m[k].freq < m[j].freq || (m[k].freq == m[j].freq && m[k].last < m[j].last)
  }

  ghost predicate Victim<K, V>(m: Cache<K, V>, k: K) {
    k in m && forall j {:trigger m[j]} :: j in m && j != k ==> Before(m, k, j)
  }

  ghost function Touched<K, V>(m: Cache<K, V>, k: K, value: V, now: nat): (r: Cache<K, V>)
    requires k in m
    ensures r.Keys == m.Keys
  {
    m[k := Use(value, m[k].freq + 1, now)]
  }

  // A new key comes in, and if so the victim goes out.
  ghost predicate Inserted<K, V>(m: Cache<K, V>, r: Cache<K, V>, evicts: bool, k: K, value: V, now: nat) {
    if !evicts then r == m[k := Use(value, 1, now)]
    else exists v {:trigger Victim(m, v)} :: v in m && Victim(m, v) && r == (m - {v})[k := Use(value, 1, now)]
  }

  // The keys accessed least often.
  ghost function Least<K, V>(m: Cache<K, V>): (s: set<K>) {
    set k | k in m && forall j {:trigger m[j]} :: j in m ==> m[k].freq <= m[j].freq
  }

  // What is left after evictions, each of the policy's victim.
  ghost predicate Kept<K, V>(m: Cache<K, V>, r: Cache<K, V>) {
    && r.Keys <= m.Keys && (forall k {:trigger r[k]} :: k in r ==> r[k] == m[k])
    && forall k, j {:trigger Before(m, k, j)} :: k in m && k !in r && j in r ==> Before(m, k, j)
  }

  lemma KeptStep<K, V>(m: Cache<K, V>, r: Cache<K, V>, v: K)
    requires Kept(m, r) && Victim(r, v)
    ensures Kept(m, r - {v})
  {
    forall k, j {:trigger Before(m, k, j)} | k in m && k !in r - {v} && j in r - {v} ensures Before(m, k, j) {
      assert r[j] == m[j];
      if k == v { assert Before(r, v, j) && r[v] == m[v]; }
    }
  }

  // Three keys set one after another, two of them read: a full cache of three that cannot shrink to
  // one, as only one key is accessed least often.
  lemma ThreeKeys(a: Cache<int, int>, b: Cache<int, int>, c: Cache<int, int>)
    requires Inserted(map[], a, false, 1, 10, 0) && Inserted(a, b, |a| >= 3, 2, 20, 1)
      && Inserted(b, c, |b| >= 3, 3, 30, 2)
    ensures 2 in c && 3 in Touched(c, 2, 20, 3)
    ensures var m := Touched(Touched(c, 2, 20, 3), 3, 30, 4);
      |m| == 3 && Least(m) == {1} && |m| - 1 > |Least(m)|
  {
    var no: Cache<int, int> := map[];
    assert a == no[1 := Use(10, 1, 0)];
    assert b == a[2 := Use(20, 1, 1)];
    assert c == b[3 := Use(30, 1, 2)];
    var m := Touched(Touched(c, 2, 20, 3), 3, 30, 4);
    assert m.Keys == {1, 2, 3} && m[1].freq == 1 && m[2].freq == 2 && m[3].freq == 2;
    assert |m| == |m.Keys|;
  }

  // Changing the value first makes no difference to an access that sets it.
  lemma TouchedValue<K, V>(m: Cache<K, V>, k: K, value: V, now: nat)
    requires k in m
    ensures Touched(m[k := m[k].(value := value)], k, value, now) == Touched(m, k, value, now)
  {
  }

  // The victim is unique.
  lemma OneVictim<K, V>(m: Cache<K, V>, k: K, j: K)
    requires Victim(m, k) && Victim(m, j)
    ensures k == j
  {
  }
}

/** The cache with one list of entries for each frequency. */
module LFUs {
  import opened LFUPolicy
  import opened Wrappers

  class Entry<K, V> {
    const key: K
    var value: V
    var freq: int

    constructor (key: K, value: V)
      ensures this.key == key && this.value == value && freq == 1
    {
      this.key, this.value, freq := key, value, 1;
    }
  }

  // list.Remove: the entry stands at most once in its list.
  function Removed<E(==)>(s: seq<E>, e: E): (r: seq<E>) {
    if s == [] then [] else if s[0] == e then s[1..] else [s[0]] + Removed(s[1..], e)
  }

  lemma {:induction false} RemovedLength<E>(s: seq<E>, e: E)
    requires e in s
    ensures |Removed(s, e)| == |s| - 1
  {
    if s[0] != e { RemovedLength(s[1..], e); }
  }

  ghost predicate Falling<K, V>(s: seq<Entry<K, V>>, last: map<K, nat>) {
    && (forall i {:trigger s[i]} :: 0 <= i < |s| ==> s[i].key in last)
    && (forall i, j {:trigger s[i], s[j]} :: 0 <= i < j < |s| ==> last[s[i].key] > last[s[j].key])
  }

  lemma {:induction false} RemovedIn<E>(s: seq<E>, e: E, x: E)
    ensures x in Removed(s, e) ==> x in s
    ensures x in s && x != e ==> x in Removed(s, e)
  {
    if s != [] {
      RemovedIn(s[1..], e, x);
      assert s == [s[0]] + s[1..];
    }
  }

  lemma FallingTail<K, V>(s: seq<Entry<K, V>>, last: map<K, nat>)
    requires Falling(s, last) && s != []
    ensures Falling(s[1..], last)
    ensures forall i {:trigger s[1..][i]} :: 0 <= i < |s| - 1 ==> last[s[1..][i].key] < last[s[0].key]
  {
    forall i, j {:trigger s[1..][i], s[1..][j]} | 0 <= i < j < |s| - 1
      ensures last[s[1..][i].key] > last[s[1..][j].key]
    {
      assert s[1..][i] == s[i + 1] && s[1..][j] == s[j + 1];
    }
  }

  lemma FallingOnto<K, V>(e: Entry<K, V>, s: seq<Entry<K, V>>, last: map<K, nat>)
    requires Falling(s, last) && e.key in last
    requires forall x {:trigger x in s} :: x in s ==> x.key in last && last[x.key] < last[e.key]
    ensures Falling([e] + s, last)
  {
    var t := [e] + s;
    forall i, j {:trigger t[i], t[j]} | 0 <= i < j < |t|
      ensures t[i].key in last && t[j].key in last && last[t[i].key] > last[t[j].key]
    {
      assert t[j] == s[j - 1] && s[j - 1] in s;
    }
    forall i {:trigger t[i]} | 0 <= i < |t| ensures t[i].key in last {
      if i > 0 { assert t[i] == s[i - 1]; }
    }
  }

  lemma {:induction false} RemovedFalls<K, V>(s: seq<Entry<K, V>>, e: Entry<K, V>, last: map<K, nat>)
    requires Falling(s, last)
    ensures Falling(Removed(s, e), last) && e !in Removed(s, e)
  {
    if s != [] {
      FallingTail(s, last);
      RemovedFalls(s[1..], e, last);
      if s[0] == e {
        forall x | x in s[1..] ensures x != e {
          var i :| 0 <= i < |s| - 1 && s[1..][i] == x;
        }
      } else {
        forall x {:trigger x in Removed(s[1..], e)} | x in Removed(s[1..], e)
          ensures x.key in last && last[x.key] < last[s[0].key]
        {
          RemovedIn(s[1..], e, x);
          var i :| 0 <= i < |s| - 1 && s[1..][i] == x;
        }
        FallingOnto(s[0], Removed(s[1..], e), last);
      }
    }
  }

  // The state of a cache as a value.
  datatype Snapshot<K, V> = Snapshot(items: map<K, Entry<K, V>>, freqs: map<K, int>, lists: map<int, seq<Entry<K, V>>>,
                                     minFreq: int, last: map<K, nat>, clock: nat)

  ghost predicate Keyed<K, V>(s: Snapshot<K, V>, k: K) {
    && k in s.items && k in s.freqs && k in s.last && s.last[k] < s.clock
    && s.items[k].key == k && s.freqs[k] >= 1 && s.minFreq <= s.freqs[k]
    && s.freqs[k] in s.lists && s.items[k] in s.lists[s.freqs[k]]
  }

  ghost predicate Belongs<K, V>(s: Snapshot<K, V>, f: int, e: Entry<K, V>) {
    e.key in s.items && e.key in s.freqs && s.items[e.key] == e && s.freqs[e.key] == f
  }

  ghost predicate Listed<K, V>(s: Snapshot<K, V>, f: int) {
    && f in s.lists && s.lists[f] != [] && Falling(s.lists[f], s.last)
    && forall e {:trigger Belongs(s, f, e)} :: e in s.lists[f] ==> Belongs(s, f, e)
  }

  // minFreq never exceeds a frequency.
  ghost predicate Sound<K, V>(s: Snapshot<K, V>) {
    && s.freqs.Keys == s.items.Keys <= s.last.Keys
    && (forall k {:trigger Keyed(s, k)} :: k in s.items ==> Keyed(s, k))
    && (forall f {:trigger Listed(s, f)} :: f in s.lists ==> Listed(s, f))
  }

  ghost function Relisted<K, V>(s: Snapshot<K, V>, f: int, list: seq<Entry<K, V>>): (r: map<int, seq<Entry<K, V>>>) {
    if list == [] then s.lists - {f} else s.lists[f := list]
  }

  // Without the entry of k.
  ghost function Unlisted<K, V>(s: Snapshot<K, V>, k: K): (r: Snapshot<K, V>)
    requires Sound(s) && k in s.items
  {
    assert Keyed(s, k);
    Snapshot(s.items - {k}, s.freqs - {k}, Relisted(s, s.freqs[k], Removed(s.lists[s.freqs[k]], s.items[k])),
      s.minFreq, s.last, s.clock)
  }

  lemma UnlistedSound<K, V>(s: Snapshot<K, V>, k: K)
    requires Sound(s) && k in s.items
    ensures Sound(Unlisted(s, k))
  {
    var r := Unlisted(s, k);
    var f := s.freqs[k];
    assert Keyed(s, k) && Listed(s, f);
    RemovedFalls(s.lists[f], s.items[k], s.last);
    forall j {:trigger Keyed(r, j)} | j in r.items ensures Keyed(r, j) {
      assert Keyed(s, j);
      RemovedIn(s.lists[f], s.items[k], s.items[j]);
    }
    forall g {:trigger Listed(r, g)} | g in r.lists ensures Listed(r, g) {
      assert Listed(s, g);
      forall e {:trigger Belongs(r, g, e)} | e in r.lists[g] ensures Belongs(r, g, e) {
        RemovedIn(s.lists[f], s.items[k], e);
        assert Belongs(s, g, e);
      }
    }
  }

  // With a new entry, at the front of its list.
  ghost function Pushed<K, V>(s: Snapshot<K, V>, e: Entry<K, V>, f: int, minFreq: int): (r: Snapshot<K, V>) {
    var list := if f in s.lists then s.lists[f] else [];
    Snapshot(s.items[e.key := e], s.freqs[e.key := f], s.lists[f := [e] + list], minFreq, s.last[e.key := s.clock],
      s.clock + 1)
  }

  lemma PushedSound<K, V>(s: Snapshot<K, V>, e: Entry<K, V>, f: int, minFreq: int)
    requires Sound(s) && e.key !in s.items && f >= 1 && minFreq <= f
    requires forall k {:trigger s.freqs[k]} :: k in s.freqs ==> minFreq <= s.freqs[k]
    ensures Sound(Pushed(s, e, f, minFreq))
  {
    var r := Pushed(s, e, f, minFreq);
    forall j {:trigger Keyed(r, j)} | j in r.items ensures Keyed(r, j) {
      if j != e.key { assert Keyed(s, j); }
    }
    forall g {:trigger Listed(r, g)} | g in r.lists ensures Listed(r, g) {
      PushedListed(s, e, f, minFreq, g);
    }
  }

  lemma PushedListed<K, V>(s: Snapshot<K, V>, e: Entry<K, V>, f: int, minFreq: int, g: int)
    requires Sound(s) && e.key !in s.items
    requires g in Pushed(s, e, f, minFreq).lists
    ensures Listed(Pushed(s, e, f, minFreq), g)
  {
    var r := Pushed(s, e, f, minFreq);
    var list := if g in s.lists then s.lists[g] else [];
    if g in s.lists { assert Listed(s, g); }
    forall x | x in list ensures x.key in s.items && x.key in s.last && s.last[x.key] < s.clock {
      assert Belongs(s, g, x) && Keyed(s, x.key);
    }
    assert Falling(list, r.last) by {
      forall i, j {:trigger list[i], list[j]} | 0 <= i < j < |list| ensures r.last[list[i].key] > r.last[list[j].key] {
        assert list[i] in list && list[j] in list;
      }
      forall i {:trigger list[i]} | 0 <= i < |list| ensures list[i].key in r.last {
        assert list[i] in list;
      }
    }
    if g == f { FallingOnto(e, list, r.last); }
    forall x {:trigger Belongs(r, g, x)} | x in r.lists[g] ensures Belongs(r, g, x) {
      if x in list { assert Belongs(s, g, x); }
    }
  }

  class LFU<K(==), V> {
    var capacity: int
    var minFreq: int
    var items: map<K, Entry<K, V>>
    var freqList: map<int, seq<Entry<K, V>>>
    ghost var last: map<K, nat>
    ghost var clock: nat

    ghost function Freqs(): (m: map<K, int>)
      reads this`items, items.Values`freq
    {
      map k | k in items :: items[k].freq
    }

    ghost function State(): (s: Snapshot<K, V>)
      reads this`items, this`freqList, this`minFreq, this`last, this`clock, items.Values`freq
    {
      Snapshot(items, Freqs(), freqList, minFreq, last, clock)
    }

    // What every operation keeps.
    ghost predicate Usable()
      reads this, items.Values`freq
    {
      capacity >= 1 && Sound(State())
    }

    // The capacity is kept, and when the cache is full, minFreq is the least frequency.  Every operation
    // but Resize keeps this too.
    ghost predicate Valid()
      reads this, items.Values`freq
    {
      Usable() && |items| <= capacity && (|items| == capacity ==> minFreq in freqList)
    }

    ghost function Values(): (m: map<K, V>)
      reads this`items, items.Values`value
    {
      map k | k in items :: items[k].value
    }

    ghost function Contents(): (m: Cache<K, V>)
      reads this`items, this`freqList, this`minFreq, this`last, this`clock, items.Values
      requires Sound(State())
    {
      Uses(State(), Values())
    }

    constructor (capacity: int)
      ensures Valid() && Contents() == map[] && items == map[] && clock == 0
      ensures this.capacity == if capacity < 1 then 1 else capacity
    {
      this.capacity := if capacity < 1 then 1 else capacity;
      minFreq := 0;
      items, freqList, last, clock := map[], map[], map[], 0;
    }

    // A key was found.
    method Get(key: K) returns (value: Option<V>)
      requires Usable()
      modifies this`minFreq, this`freqList, this`last, this`clock, items.Values`freq
      ensures Usable() && (old(Valid()) ==> Valid()) && clock == old(clock) + if key in old(Contents()) then 1 else 0
      ensures value == if key in old(Contents()) then Some(old(Contents())[key].value) else None
      ensures Contents() ==
        if key in old(Contents()) then Touched(old(Contents()), key, old(Contents())[key].value, old(clock))
          else old(Contents())
    {
      if key !in items {
        return None;
      }
      var entry := items[key];
      assert Keyed(State(), key);
      incrementFreq(entry);
      value := Some(entry.value);
    }

    method incrementFreq(entry: Entry<K, V>)
      requires Usable() && entry.key in items && items[entry.key] == entry
      modifies this`minFreq, this`freqList, this`last, this`clock, entry`freq
      ensures Usable() && (old(Valid()) ==> Valid()) && clock == old(clock) + 1
      ensures Contents() == Touched(old(Contents()), entry.key, entry.value, old(clock))
    {
      ghost var s, values := State(), Values();
      AccessSound(s, values, entry.key);
      moveUp(entry);
      assert State() == Accessed(s, entry.key) && Values() == values;
    }

    method moveUp(entry: Entry<K, V>)
      requires Sound(State()) && entry.key in items && items[entry.key] == entry
      modifies this`minFreq, this`freqList, this`last, this`clock, entry`freq
      ensures State() == Accessed(old(State()), entry.key)
    {
      ghost var s, key := State(), entry.key;
      assert Keyed(s, key);
      OneEntryEach(s, key);
      TouchedUses(s, map[], key, NextMin(s, key));
      detach(entry);
      attach(entry);
    }

    // Leaves the list, and moves minFreq on if it was the last entry at it.
    method detach(entry: Entry<K, V>)
      requires entry.freq in freqList
      modifies this`minFreq, this`freqList
      ensures freqList == Relisted(old(State()), entry.freq, Removed(old(freqList)[entry.freq], entry))
      ensures minFreq == if entry.freq !in freqList && old(minFreq) == entry.freq then old(minFreq) + 1
        else old(minFreq)
    {
      unlist(entry);
      if entry.freq !in freqList && minFreq == entry.freq {
        minFreq := minFreq + 1;
      }
    }

    // Joins the list of the next frequency, in front.
    method attach(entry: Entry<K, V>)
      requires entry.key in items && items[entry.key] == entry
      requires forall j {:trigger items[j]} :: j in items && j != entry.key ==> items[j] != entry
      modifies this`freqList, this`last, this`clock, entry`freq
      ensures var s, k, f := old(State()), entry.key, old(entry.freq) + 1;
        State() == Snapshot(s.items, s.freqs[k := f], s.lists[f := [entry] + if f in s.lists then s.lists[f] else []],
                            s.minFreq, s.last[k := s.clock], s.clock + 1)
    {
      entry.freq := entry.freq + 1;
      pushFront(entry, entry.freq);
      last := last[entry.key := clock];
      clock := clock + 1;
    }

    // A new key in a full cache takes the victim's place, as long as evict finds one; in a valid cache
    // it always does.
    method Set(key: K, value: V) returns (ok: bool)
      requires Usable()
      modifies this`minFreq, this`items, this`freqList, this`last, this`clock, items.Values
      ensures Usable() && ok && clock == old(clock) + 1
      ensures if key in old(Contents()) then Contents() == Touched(old(Contents()), key, value, old(clock))
              else Inserted(old(Contents()), Contents(), old(|items| >= capacity && AtMin() != []), key, value,
                old(clock))
      ensures old(Valid()) ==> Valid() && (old(|items| >= capacity && AtMin() != []) <==> |old(Contents())| >= capacity)
      ensures fresh(items.Values - old(items.Values))
    {
      Room();
      if key in items {
        assert Keyed(State(), key);
        update(items[key], value);
      } else {
        admit(key, value);
      }
      return true;
    }

    // A full cache in good order has a victim.
    lemma Room()
      requires Sound(State())
      ensures |Contents()| == |items|
      ensures Valid() && |items| >= capacity ==> AtMin() != []
    {
      UsesKeys(State(), Values());
      ListAtMin();
    }

    method admit(key: K, value: V)
      requires Usable() && key !in items
      modifies this`minFreq, this`items, this`freqList, this`last, this`clock
      ensures Usable() && (old(Valid()) ==> Valid()) && clock == old(clock) + 1
      ensures Inserted(old(Contents()), Contents(), old(|items| >= capacity && AtMin() != []), key, value, old(clock))
      ensures fresh(items.Values - old(items.Values))
    {
      Room();
      if |items| >= capacity {
        replace(key, value);
      } else {
        insert(key, value);
      }
    }

    // The cache is full.
    method replace(key: K, value: V)
      requires Usable() && key !in items && |items| >= capacity
      modifies this`minFreq, this`items, this`freqList, this`last, this`clock
      ensures Usable() && minFreq in freqList && clock == old(clock) + 1
      ensures |items| == old(|items|) + if old(AtMin()) != [] then 0 else 1
      ensures Inserted(old(Contents()), Contents(), old(AtMin()) != [], key, value, old(clock))
      ensures fresh(items.Values - old(items.Values))
    {
      ListAtMin();
      ghost var victim := evict();
      insert(key, value);
      assert victim.Some? ==> Victim(old(Contents()), victim.value);
    }

    method update(entry: Entry<K, V>, value: V)
      requires Usable() && entry.key in items && items[entry.key] == entry
      modifies this`minFreq, this`freqList, this`last, this`clock, entry
      ensures Usable() && (old(Valid()) ==> Valid()) && clock == old(clock) + 1
      ensures Contents() == Touched(old(Contents()), entry.key, value, old(clock))
    {
      setValue(entry, value);
      incrementFreq(entry);
      TouchedValue(old(Contents()), entry.key, value, old(clock));
    }

    method setValue(entry: Entry<K, V>, value: V)
      requires Usable() && entry.key in items && items[entry.key] == entry
      modifies entry`value
      ensures Usable() && (old(Valid()) ==> Valid()) && entry.value == value && entry.key in old(Contents())
      ensures Contents() == old(Contents())[entry.key := old(Contents())[entry.key].(value := value)]
    {
      OneEntryEach(State(), entry.key);
      NewValue(State(), Values(), entry.key, value);
      entry.value := value;
      assert Values() == old(Values())[entry.key := value];
    }

    // Adds an entry of frequency 1.
    method insert(key: K, value: V)
      requires Usable() && key !in items
      modifies this`minFreq, this`items, this`freqList, this`last, this`clock
      ensures Usable() && minFreq in freqList && |items| == old(|items|) + 1 && clock == old(clock) + 1
      ensures Contents() == old(Contents())[key := Use(value, 1, old(clock))]
      ensures fresh(items.Values - old(items.Values))
    {
      var entry := new Entry(key, value);
      InsertSound(State(), Values(), entry, value);
      place(entry);
    }

    method place(entry: Entry<K, V>)
      requires entry.key !in items && entry.freq == 1
      modifies this`minFreq, this`items, this`freqList, this`last, this`clock
      ensures State() == Pushed(old(State()), entry, 1, 1) && items == old(items)[entry.key := entry]
      ensures Values() == old(Values())[entry.key := entry.value]
    {
      pushFront(entry, 1);
      register(entry);
      date(entry.key);
    }

    method date(key: K)
      modifies this`minFreq, this`last, this`clock
      ensures minFreq == 1 && last == old(last)[key := old(clock)] && clock == old(clock) + 1
    {
      minFreq := 1;
      last := last[key := clock];
      clock := clock + 1;
    }

    method register(entry: Entry<K, V>)
      requires entry.key !in items
      modifies this`items
      ensures items == old(items)[entry.key := entry]
      ensures Freqs() == old(Freqs())[entry.key := entry.freq]
      ensures Values() == old(Values())[entry.key := entry.value]
    {
      items := items[entry.key := entry];
    }

    // With the cache full, the least recent of the least frequent goes.
    method evict() returns (ghost victim: Option<K>)
      requires Sound(State())
      modifies this`items, this`freqList
      ensures Sound(State()) && items.Values <= old(items.Values) && items.Keys <= old(items.Keys)
      ensures old(minFreq) in old(freqList) && old(items) != map[] <==> victim.Some?
      ensures victim.Some? ==>
        Victim(old(Contents()), victim.value) && Contents() == old(Contents()) - {victim.value}
          && |items| == old(|items|) - 1
      ensures victim.Some? ==> |AtMin()| == |old(AtMin())| - 1
      ensures victim.None? ==> State() == old(State()) && Contents() == old(Contents())
    {
      if |items| == 0 {
        return None;
      }
      if minFreq !in freqList {
        return None;
      }
      var minList := freqList[minFreq];
      LastListed(State());
      var entry := minList[|minList| - 1];
      victim := Some(entry.key);
      removeLast(entry);
    }

    method removeLast(entry: Entry<K, V>)
      requires Sound(State()) && AtMin() != [] && entry == AtMin()[|AtMin()| - 1]
      modifies this`items, this`freqList
      ensures Sound(State()) && items == old(items) - {entry.key} && |items| == old(|items|) - 1
      ensures Contents() == old(Contents()) - {entry.key} && |AtMin()| == |old(AtMin())| - 1
      ensures Victim(old(Contents()), entry.key)
    {
      LastListed(State());
      LastIsVictim(State(), Values());
      RemovedLength(AtMin(), entry);
      removeEntry(entry);
    }

    method removeEntry(entry: Entry<K, V>)
      requires Sound(State()) && entry.key in items && items[entry.key] == entry
      modifies this`items, this`freqList
      ensures Sound(State()) && items == old(items) - {entry.key} && |items| == old(|items|) - 1
      ensures Contents() == old(Contents()) - {entry.key}
      ensures entry.freq in old(freqList)
      ensures freqList == Relisted(old(State()), entry.freq, Removed(old(freqList)[entry.freq], entry))
    {
      assert Keyed(State(), entry.key);
      RemoveSound(State(), Values(), entry.key);
      drop(entry);
    }

    method drop(entry: Entry<K, V>)
      requires Sound(State()) && entry.key in items && items[entry.key] == entry
      modifies this`items, this`freqList
      ensures State() == Unlisted(old(State()), entry.key) && items == old(items) - {entry.key}
      ensures Values() == old(Values()) - {entry.key}
    {
      ghost var s := State();
      assert Keyed(s, entry.key);
      unlist(entry);
      items := items - {entry.key};
      assert State().freqs == s.freqs - {entry.key};
    }

    method Delete(key: K) returns (found: bool)
      requires Usable()
      modifies this`items, this`freqList
      ensures Usable() && (old(Valid()) ==> Valid()) && found == (key in old(Contents()))
        && Contents() == old(Contents()) - {key}
      ensures items.Values <= old(items.Values)
    {
      if key !in items {
        return false;
      }
      var entry := items[key];
      assert Keyed(State(), key);
      removeEntry(entry);
      return true;
    }

    // The entries that evict can reach: it never looks beyond the list at minFreq.
    ghost function AtMin(): (s: seq<Entry<K, V>>)
      reads this`minFreq, this`freqList
    {
      if minFreq in freqList then freqList[minFreq] else []
    }

    // Shrinks by evictions.  Once the list at minFreq is used up evict does nothing any more, and a
    // loop that still has to shrink goes on for ever: this is where `returns` is false.
    method Resize(newCapacity: int) returns (ends: bool)
      requires Usable()
      modifies this`capacity, this`items, this`freqList
      ensures capacity == if newCapacity < 1 then 1 else newCapacity
      ensures Usable() && Kept(old(Contents()), Contents()) && items.Values <= old(items.Values)
      ensures ends <==> |old(items)| - capacity <= |old(AtMin())|
      ensures old(AtMin()) != [] ==>
        (ends <==> |old(Contents())| - capacity <= |Least(old(Contents()))|)
      ensures ends ==> |items| == if |old(items)| < capacity then |old(items)| else capacity
      ensures Valid() <==> |old(items)| < capacity || |old(items)| - capacity < |old(AtMin())|
      ensures !ends ==> |items| > capacity && AtMin() == []
    {
      LeastAtMin();
      setCapacity(newCapacity);
      ends := shrink();
      ValidAgain();
    }

    method setCapacity(newCapacity: int)
      requires Sound(State())
      modifies this`capacity
      ensures capacity == if newCapacity < 1 then 1 else newCapacity
      ensures State() == old(State()) && AtMin() == old(AtMin()) && Contents() == old(Contents())
    {
      capacity := if newCapacity < 1 then 1 else newCapacity;
    }

    lemma ValidAgain()
      requires Sound(State()) && capacity >= 1
      ensures Valid() <==> |items| < capacity || (|items| == capacity && AtMin() != [])
    {
      ListAtMin();
    }

    // The loop of Resize.
    method shrink() returns (ends: bool)
      requires Sound(State())
      modifies this`items, this`freqList
      ensures Sound(State()) && Kept(old(Contents()), Contents()) && items.Values <= old(items.Values)
      ensures |items| == |old(items)| || capacity <= |items| <= |old(items)|
      ensures |AtMin()| == |old(AtMin())| - (|old(items)| - |items|)
      ensures if ends then |items| <= capacity else |items| > capacity && AtMin() == []
    {
      ghost var m, entries, all, atMin := Contents(), items.Values, |items|, |AtMin()|;
      while |items| > capacity
        invariant Sound(State()) && Kept(m, Contents()) && items.Values <= entries
        invariant |items| == all || capacity <= |items| <= all
        invariant |AtMin()| == atMin - (all - |items|)
        decreases |items|
      {
        ends := evictOnce(m);
        if !ends {
          return;
        }
      }
      ends := true;
    }

    // One turn of the loop, and whether it did anything.
    method evictOnce(ghost m: Cache<K, V>) returns (gone: bool)
      requires Sound(State()) && Kept(m, Contents())
      modifies this`items, this`freqList
      ensures Sound(State()) && Kept(m, Contents()) && items.Values <= old(items.Values)
      ensures gone <==> old(AtMin()) != []
      ensures |items| == old(|items|) - (if gone then 1 else 0) && |AtMin()| == |old(AtMin())| - (if gone then 1 else 0)
    {
      ListAtMin();
      var before := |items|;
      ghost var was := Contents();
      ghost var victim := evict();
      gone := |items| < before;
      if gone { KeptStep(m, was, victim.value); }
    }

    // If there are any, as in a full valid cache, these are the keys accessed least often.
    lemma LeastAtMin()
      requires Sound(State())
      ensures |Contents()| == |items|
      ensures AtMin() != [] ==> |AtMin()| == |Least(Contents())|
    {
      UsesKeys(State(), Values());
      if minFreq in freqList { LeastListed(State(), Values()); }
    }

    lemma ListAtMin()
      requires Sound(State())
      ensures minFreq in freqList <==> AtMin() != []
      ensures AtMin() != [] ==> items != map[]
    {
      assert minFreq in freqList ==> Listed(State(), minFreq) && Belongs(State(), minFreq, AtMin()[0]);
    }

    method Clear()
      requires Usable()
      modifies this`items, this`freqList, this`minFreq
      ensures Valid() && Contents() == map[] && items == map[] && capacity == old(capacity)
    {
      items, freqList, minFreq := map[], map[], 0;
    }

    // Takes the entry off its list, and an emptied list off the map.
    method unlist(entry: Entry<K, V>)
      requires entry.freq in freqList
      modifies this`freqList
      ensures freqList == Relisted(old(State()), entry.freq, Removed(old(freqList)[entry.freq], entry))
    {
      var list := Removed(freqList[entry.freq], entry);
      freqList := freqList[entry.freq := list];
      if |list| == 0 {
        freqList := freqList - {entry.freq};
      }
    }

    method pushFront(entry: Entry<K, V>, freq: int)
      modifies this`freqList
      ensures freqList == old(freqList)[freq := [entry] + if freq in old(freqList) then old(freqList)[freq] else []]
    {
      if freq !in freqList {
        freqList := freqList[freq := []];
      }
      freqList := freqList[freq := [entry] + freqList[freq]];
    }
  }

  lemma LastListed<K, V>(s: Snapshot<K, V>)
    requires Sound(s) && s.minFreq in s.lists
    ensures s.lists[s.minFreq] != []
    ensures var e := s.lists[s.minFreq][|s.lists[s.minFreq]| - 1];
      e in s.lists[s.minFreq] && e.key in s.items && s.items[e.key] == e && e.key in s.freqs
        && s.freqs[e.key] == s.minFreq
  {
    assert Listed(s, s.minFreq) && Belongs(s, s.minFreq, s.lists[s.minFreq][|s.lists[s.minFreq]| - 1]);
  }

  lemma OneEntryEach<K, V>(s: Snapshot<K, V>, k: K)
    requires Sound(s) && k in s.items
    ensures forall j {:trigger s.items[j]} :: j in s.items && j != k ==> s.items[j] != s.items[k]
  {
    assert Keyed(s, k);
    forall j {:trigger s.items[j]} | j in s.items && j != k ensures s.items[j] != s.items[k] {
      assert Keyed(s, j);
    }
  }

  // minFreq follows the entry of k when it leaves an empty list behind.
  ghost function NextMin<K, V>(s: Snapshot<K, V>, k: K): (m: int)
    requires Sound(s) && k in s.items
  {
    if k in s.freqs && s.freqs[k] !in Unlisted(s, k).lists && s.minFreq == s.freqs[k] then s.minFreq + 1 else s.minFreq
  }

  lemma MinFreqRises<K, V>(s: Snapshot<K, V>, k: K)
    requires Sound(s) && k in s.items
    ensures k in s.freqs && NextMin(s, k) <= s.freqs[k] + 1 && 1 <= s.freqs[k]
    ensures forall j {:trigger Unlisted(s, k).freqs[j]} :: j in Unlisted(s, k).freqs ==>
      NextMin(s, k) <= Unlisted(s, k).freqs[j]
    ensures s.minFreq in s.lists ==> NextMin(s, k) in Unlisted(s, k).lists || NextMin(s, k) == s.freqs[k] + 1
  {
    var u := Unlisted(s, k);
    UnlistedSound(s, k);
    assert Keyed(s, k);
    forall j {:trigger u.freqs[j]} | j in u.freqs ensures NextMin(s, k) <= u.freqs[j] {
      assert Keyed(u, j);
    }
  }

  ghost function Uses<K, V>(s: Snapshot<K, V>, values: map<K, V>): (m: Cache<K, V>) {
    map k | k in s.items && k in s.freqs && k in s.last && k in values :: Use(values[k], s.freqs[k], s.last[k])
  }

  lemma TouchedUses<K, V>(s: Snapshot<K, V>, values: map<K, V>, k: K, m: int)
    requires Sound(s) && k in s.items
    ensures k in s.freqs
    ensures var p := Pushed(Unlisted(s, k), s.items[k], s.freqs[k] + 1, m);
      p.items == s.items && p.freqs == s.freqs[k := s.freqs[k] + 1] && p.last == s.last[k := s.clock]
      && (values.Keys == s.items.Keys ==>
           k in Uses(s, values) && Uses(p, values) == Touched(Uses(s, values), k, values[k], s.clock))
  {
    assert Keyed(s, k);
  }

  // The state after an access to k.
  ghost function Accessed<K, V>(s: Snapshot<K, V>, k: K): (r: Snapshot<K, V>)
    requires Sound(s) && k in s.items
  {
    Pushed(Unlisted(s, k), s.items[k], s.freqs[k] + 1, NextMin(s, k))
  }

  lemma AccessSound<K, V>(s: Snapshot<K, V>, values: map<K, V>, k: K)
    requires Sound(s) && k in s.items && values.Keys == s.items.Keys
    ensures Sound(Accessed(s, k)) && Accessed(s, k).items == s.items
    ensures s.minFreq in s.lists ==> Accessed(s, k).minFreq in Accessed(s, k).lists
    ensures k in Uses(s, values) && Uses(Accessed(s, k), values) == Touched(Uses(s, values), k, values[k], s.clock)
  {
    assert Keyed(s, k);
    UnlistedSound(s, k);
    MinFreqRises(s, k);
    PushedSound(Unlisted(s, k), s.items[k], s.freqs[k] + 1, NextMin(s, k));
    TouchedUses(s, values, k, NextMin(s, k));
  }

  lemma FewerItems<K, E>(m: map<K, E>, k: K)
    requires k in m
    ensures |m - {k}| == |m| - 1
  {
    assert m == (m - {k})[k := m[k]];
  }

  // The back of the list at the least frequency.
  lemma LastIsVictim<K, V>(s: Snapshot<K, V>, values: map<K, V>)
    requires Sound(s) && s.minFreq in s.lists && s.lists[s.minFreq] != [] && values.Keys == s.items.Keys
    ensures var list := s.lists[s.minFreq];
      var e := list[|list| - 1];
      e.key in s.items && s.items[e.key] == e && Victim(Uses(s, values), e.key)
  {
    var list := s.lists[s.minFreq];
    var n := |list| - 1;
    var e := list[n];
    var m := Uses(s, values);
    assert Listed(s, s.minFreq) && Belongs(s, s.minFreq, e) && Keyed(s, e.key);
    forall j {:trigger m[j]} | j in m && j != e.key ensures Before(m, e.key, j) {
      assert Keyed(s, j);
      if s.freqs[j] == s.minFreq {
        var i :| 0 <= i < |list| && list[i] == s.items[j];
        assert i != n;
      }
    }
  }

  lemma InsertSound<K, V>(s: Snapshot<K, V>, values: map<K, V>, e: Entry<K, V>, value: V)
    requires Sound(s) && e.key !in s.items && values.Keys == s.items.Keys
    ensures Sound(Pushed(s, e, 1, 1)) && 1 in Pushed(s, e, 1, 1).lists
    ensures |s.items[e.key := e]| == |s.items| + 1
    ensures Uses(Pushed(s, e, 1, 1), values[e.key := value]) == Uses(s, values)[e.key := Use(value, 1, s.clock)]
  {
    forall k {:trigger s.freqs[k]} | k in s.freqs ensures 1 <= s.freqs[k] {
      assert Keyed(s, k);
    }
    PushedSound(s, e, 1, 1);
  }

  lemma UsesKeys<K, V>(s: Snapshot<K, V>, values: map<K, V>)
    requires Sound(s) && values.Keys == s.items.Keys
    ensures Uses(s, values).Keys == s.items.Keys && |Uses(s, values)| == |s.items|
  {
    forall k | k in s.items ensures k in Uses(s, values) { assert Keyed(s, k); }
    assert Uses(s, values).Keys == s.items.Keys;
    assert |Uses(s, values).Keys| == |s.items.Keys|;
  }

  lemma NewValue<K, V>(s: Snapshot<K, V>, values: map<K, V>, k: K, value: V)
    requires Sound(s) && k in s.items && values.Keys == s.items.Keys
    ensures k in Uses(s, values)
    ensures Uses(s, values[k := value]) == Uses(s, values)[k := Uses(s, values)[k].(value := value)]
  {
    assert Keyed(s, k);
  }

  // Where its list exists, minFreq is the least frequency of all.
  lemma MinFreqIsLeast<K, V>(s: Snapshot<K, V>)
    requires Sound(s) && s.minFreq in s.lists
    ensures forall k {:trigger s.freqs[k]} :: k in s.freqs ==> s.minFreq <= s.freqs[k]
    ensures exists k {:trigger s.freqs[k]} :: k in s.freqs && s.freqs[k] == s.minFreq
  {
    forall k {:trigger s.freqs[k]} | k in s.freqs ensures s.minFreq <= s.freqs[k] {
      assert Keyed(s, k);
    }
    assert Listed(s, s.minFreq) && Belongs(s, s.minFreq, s.lists[s.minFreq][0]);
  }

  lemma RemoveSound<K, V>(s: Snapshot<K, V>, values: map<K, V>, k: K)
    requires Sound(s) && k in s.items && values.Keys == s.items.Keys
    ensures Sound(Unlisted(s, k)) && |s.items - {k}| == |s.items| - 1
    ensures Uses(Unlisted(s, k), values - {k}) == Uses(s, values) - {k}
  {
    UnlistedSound(s, k);
    FewerItems(s.items, k);
  }

  ghost function KeysOf<K, V>(list: seq<Entry<K, V>>): (s: set<K>) {
    set e | e in list :: e.key
  }

  lemma KeysSplit<K, V>(list: seq<Entry<K, V>>)
    requires list != []
    ensures KeysOf(list) == KeysOf(list[1..]) + {list[0].key}
  {
    assert list == [list[0]] + list[1..];
  }

  lemma {:induction false} KeysSize<K, V>(list: seq<Entry<K, V>>, last: map<K, nat>)
    requires Falling(list, last)
    ensures |KeysOf(list)| == |list|
  {
    if list != [] {
      FallingTail(list, last);
      KeysSize(list[1..], last);
      KeysSplit(list);
      forall e | e in list[1..] ensures e.key != list[0].key {
        var i :| 0 <= i < |list| - 1 && list[1..][i] == e;
      }
    }
  }

  // Where its list exists, the list at minFreq holds the entries of the keys accessed least often.
  lemma LeastListed<K, V>(s: Snapshot<K, V>, values: map<K, V>)
    requires Sound(s) && s.minFreq in s.lists && values.Keys == s.items.Keys
    ensures |s.lists[s.minFreq]| == |Least(Uses(s, values))|
  {
    var list, m := s.lists[s.minFreq], Uses(s, values);
    UsesKeys(s, values);
    MinFreqIsLeast(s);
    assert Listed(s, s.minFreq);
    forall k ensures k in KeysOf(list) <==> k in Least(m) {
      if k in KeysOf(list) {
        var e :| e in list && e.key == k;
        assert Belongs(s, s.minFreq, e);
      }
      if k in Least(m) {
        var j :| j in s.freqs && s.freqs[j] == s.minFreq;
        assert Keyed(s, k) && m[k].freq <= m[j].freq;
      }
    }
    assert KeysOf(list) == Least(m);
    KeysSize(list, s.last);
  }
}

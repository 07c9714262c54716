/** Counting requests in shared rows without losing one, while several web workers race.

    A call tries an update, inserts a row when the update found none, and updates again when another worker's
    insert came first. Each of the three is a transaction of its own. The same code counts page requests and
    daily outcomes, so the key `K` and the rest of the row `D` are arbitrary. */
module Counters {
  datatype Row<D> = Row(requests: nat, data: D)

  type Table<K, D> = map<K, Row<D>>

  datatype Stage = Updating | Inserting | Retrying | Done

  datatype Call<K> = Call(key: K, stage: Stage)

  datatype State<K, D> = State(table: Table<K, D>, calls: seq<Call<K>>)

  /** One transaction of call number `call`, or another writer setting the rest of a row (views, marks) and
      creating it with no requests when it is missing. */
  datatype Event<K, D> = Move(call: nat, data: D) | Write(key: K, data: D)

  /** `UPDATE ... SET requests = requests + 1`; without a row it changes nothing. */
  function Increment<K, D>(t: Table<K, D>, key: K, data: D): Table<K, D> {
    if key in t then t[key := Row(t[key].requests + 1, data)] else t
  }

  function WriteData<K, D>(t: Table<K, D>, key: K, data: D): Table<K, D> {
    t[key := Row(if key in t then t[key].requests else 0, data)]
  }

  predicate Enabled<K, D>(s: State<K, D>, e: Event<K, D>) {
    e.Move? ==> e.call < |s.calls| && !s.calls[e.call].stage.Done?
  }

  function Next<K, D>(s: State<K, D>, e: Event<K, D>): State<K, D>
    requires Enabled(s, e)
  {
    match e
    case Write(key, data) => s.(table := WriteData(s.table, key, data))
    case Move(i, data) =>
      var c := s.calls[i];
      match c.stage
      case Updating =>
        State(Increment(s.table, c.key, data), s.calls[i := c.(stage := if c.key in s.table then Done else Inserting)])
      case Inserting =>
        if c.key in s.table then s.(calls := s.calls[i := c.(stage := Retrying)])
        else State(s.table[c.key := Row(1, data)], s.calls[i := c.(stage := Done)])
      case Retrying =>
        State(Increment(s.table, c.key, data), s.calls[i := c.(stage := Done)])
      case Done => s
  }

  ghost predicate Run<K, D>(s: State<K, D>, events: seq<Event<K, D>>, last: State<K, D>)
    decreases |events|
  {
    if events == [] then s == last else Enabled(s, events[0]) && Run(Next(s, events[0]), events[1..], last)
  }

  function Requests<K, D>(t: Table<K, D>, key: K): nat {
    if key in t then t[key].requests else 0
  }

  /** How many of the calls for `key` have finished. */
  function Finished<K(==)>(calls: seq<Call<K>>, key: K): nat {
    if calls == [] then 0
    else (if calls[0].key == key && calls[0].stage.Done? then 1 else 0) + Finished(calls[1..], key)
  }

  function CallsFor<K(==)>(calls: seq<Call<K>>, key: K): nat {
    if calls == [] then 0 else (if calls[0].key == key then 1 else 0) + CallsFor(calls[1..], key)
  }

  /** A call retries only because the row is there. */
  ghost predicate RetriesHaveRow<K, D>(s: State<K, D>) {
    forall c :: c in s.calls && c.stage.Retrying? ==> c.key in s.table
  }

  lemma {:induction false} FinishedUpdate<K>(calls: seq<Call<K>>, i: nat, c: Call<K>, key: K)
    requires i < |calls| && c.key == calls[i].key && !calls[i].stage.Done?
    ensures Finished(calls[i := c], key) == Finished(calls, key) + if c.key == key && c.stage.Done? then 1 else 0
  {
    if i == 0 {
      assert calls[0 := c][1..] == calls[1..];
    } else {
      assert calls[i := c][1..] == calls[1..][i - 1 := c];
      FinishedUpdate(calls[1..], i - 1, c, key);
    }
  }

  lemma StepCounts<K, D>(s: State<K, D>, e: Event<K, D>, key: K)
    requires RetriesHaveRow(s) && Enabled(s, e)
    ensures var s' := Next(s, e);
      && RetriesHaveRow(s')
      && Requests(s'.table, key) - Finished(s'.calls, key) == Requests(s.table, key) - Finished(s.calls, key)
      && CallsFor(s'.calls, key) == CallsFor(s.calls, key)
  {
    if e.Move? {
      var c := s.calls[e.call];
      assert c in s.calls;
      var c' := Next(s, e).calls[e.call];
      FinishedUpdate(s.calls, e.call, c', key);
      CallsForUpdate(s.calls, e.call, c', key);
    }
  }

  lemma {:induction false} CallsForUpdate<K>(calls: seq<Call<K>>, i: nat, c: Call<K>, key: K)
    requires i < |calls| && c.key == calls[i].key
    ensures CallsFor(calls[i := c], key) == CallsFor(calls, key)
  {
    if i == 0 {
      assert calls[0 := c][1..] == calls[1..];
    } else {
      assert calls[i := c][1..] == calls[1..][i - 1 := c];
      CallsForUpdate(calls[1..], i - 1, c, key);
    }
  }

  /** No count is lost or invented: over every interleaving, a row's requests grow by exactly the calls for it that
      have finished since. */
  lemma {:induction false} NoLostCounts<K, D>(s: State<K, D>, events: seq<Event<K, D>>, last: State<K, D>, key: K)
    requires RetriesHaveRow(s) && Run(s, events, last)
    ensures Requests(last.table, key) - Requests(s.table, key) == Finished(last.calls, key) - Finished(s.calls, key)
    ensures CallsFor(last.calls, key) == CallsFor(s.calls, key)
    decreases |events|
  {
    if events != [] {
      StepCounts(s, events[0], key);
      NoLostCounts(Next(s, events[0]), events[1..], last, key);
    }
  }

  lemma {:induction false} FinishedWhenNew<K>(calls: seq<Call<K>>, key: K)
    ensures (forall c :: c in calls ==> c.stage.Updating?) ==> Finished(calls, key) == 0
    ensures (forall c :: c in calls ==> c.stage.Done?) ==> Finished(calls, key) == CallsFor(calls, key)
  {
    if calls != [] {
      FinishedWhenNew(calls[1..], key);
      assert calls[0] in calls;
    }
  }

  /** Once all the calls that started together are over, each row has grown by the number of calls made for it. */
  lemma AllCallsCounted<K, D>(s: State<K, D>, events: seq<Event<K, D>>, last: State<K, D>, key: K)
    requires Run(s, events, last)
    requires (forall c :: c in s.calls ==> c.stage.Updating?) && (forall c :: c in last.calls ==> c.stage.Done?)
    ensures Requests(last.table, key) == Requests(s.table, key) + CallsFor(s.calls, key)
  {
    NoLostCounts(s, events, last, key);
    FinishedWhenNew(s.calls, key);
    FinishedWhenNew(last.calls, key);
  }
}

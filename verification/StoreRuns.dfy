/** Every state a reassembler can reach, whatever arrives and whenever its reader reads. */
module StoreRuns {
  import opened Words
  import opened Stores

  datatype StoreEvent =
    | Arrive(fragment: Fragment)
    | Read(count: nat)
    | Fail

  /** A read takes no more than is buffered. */
  function StepStore(s: Store, e: StoreEvent): (t: Store)
    requires s.Valid()
    ensures t.Valid()
  {
    match e
    case Arrive(f) => InsertValid(s, f); s.Insert(f)
    case Read(count) =>
      ReadValid(s, Min(count, |s.assembled| - s.popped));
      s.Read(Min(count, |s.assembled| - s.popped))
    case Fail => s.SetError()
  }

  function RunStore(s: Store, events: seq<StoreEvent>): (t: Store)
    requires s.Valid()
    ensures t.Valid()
    decreases |events|
  {
    if events == [] then s else RunStore(StepStore(s, events[0]), events[1..])
  }

  lemma {:induction false} CapacityStays(s: Store, events: seq<StoreEvent>)
    requires s.Valid()
    ensures RunStore(s, events).capacity == s.capacity
    decreases |events|
  {
    hide Store.Judge, Store.Absorb;
    if events != [] {
      if events[0].Arrive? {
        AbsorbKeepsCapacity(s, events[0].fragment);
      }
      CapacityStays(StepStore(s, events[0]), events[1..]);
    }
  }

  lemma AbsorbKeepsCapacity(s: Store, f: Fragment)
    ensures s.Insert(f).capacity == s.capacity
  {
    hide Settle, Missing, Store.Judge;
  }

  /** In every reachable state, even when fragments contradict each other: the next byte to assemble is
      missing, nothing is held outside the window or beyond a known end, buffered and held bytes
      together fit the capacity, and the stream is closed exactly when its known end is reached. */
  lemma ReachableStore(capacity: nat, events: seq<StoreEvent>)
    ensures EmptyStore(capacity).Valid()
    ensures var s := RunStore(EmptyStore(capacity), events);
            && !s.Knows(|s.assembled|)
            && s.popped <= |s.assembled|
            && |s.assembled| - s.popped + |s.held| <= capacity
            && (forall i :: i in s.held ==> |s.assembled| < i < s.popped + capacity)
            && (s.eof.Some? ==> forall i: nat :: s.Knows(i) ==> i < s.eof.value)
            && (s.closed <==> s.eof == Some(|s.assembled|))
  {
    hide RunStore;
    CapacityStays(EmptyStore(capacity), events);
    JointCapacity(RunStore(EmptyStore(capacity), events));
  }
}

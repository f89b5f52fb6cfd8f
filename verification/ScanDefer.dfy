/** `edgez_scan_defer` and `edgez_scan_held`: a hold deadline in one atomic 32-bit word, extended by
    any number of threads through a compare-exchange loop. Time and deadlines are unbounded here; the
    code sees them modulo 2^32. */
module ScanDefer {
  import opened Words

  /** The loop guard of `edgez_scan_defer`. */
  predicate Wants(current: word, now: word, proposed: word) {
    Signed(current, now) <= 0 || Signed(proposed, current) > 0
  }

  predicate Held(now: word, deadline: word, authorizedPeers: nat) {
    authorizedPeers != 0 || Signed(deadline, now) > 0
  }

  /** Any authorised peer holds the scan; otherwise, inside the window, a deadline ahead of now does. */
  lemma HeldMeaning(t: int, d: int, peers: nat)
    ensures peers != 0 ==> Held(Word(t), Word(d), peers)
    ensures -W <= d - t < W ==> (Held(Word(t), Word(d), peers) <==> peers != 0 || t < d)
  {
    if -W <= d - t < W {
      SignedIsDifference(d, t);
    }
  }

  datatype Pc = Idle | Started | Trying | Done

  /** One call. `seen` is the unbounded deadline behind the local `current`; the counters record
      `swaps` at the first and at the latest time the shared word was read. */
  datatype Call = Call(pc: Pc, now: int, duration: nat, current: word, seen: int,
                       retries: nat, swapsAtLoad: nat, swapsAtSeen: nat)
  {
    function Due(): int { now + duration }
    predicate Active() { pc.Started? || pc.Trying? }
  }

  /** `deadline` is the shared word, `due` the unbounded deadline it stands for, `swaps` the number of
      successful exchanges so far. */
  datatype State = State(clock: int, deadline: word, due: int, swaps: nat, calls: seq<Call>)

  datatype Action =
    | Tick
    | Start(i: nat, lag: nat)          // entered with a time stamp that is `lag` ticks old
    | Load(i: nat)                     // atomic_load
    | Try(i: nat, spurious: bool)      // loop guard and weak compare-exchange

  predicate Enabled(s: State, a: Action) {
    match a
    case Tick => true
    case Start(i, _) => i < |s.calls| && s.calls[i].pc.Idle?
    case Load(i) => i < |s.calls| && s.calls[i].pc.Started?
    case Try(i, _) => i < |s.calls| && s.calls[i].pc.Trying?
  }

  /** The call's next exchange succeeds. */
  predicate Swaps(s: State, c: Call, spurious: bool) {
    Wants(c.current, Word(c.now), Word(c.Due())) && s.deadline == c.current && !spurious
  }

  function Step(s: State, a: Action): State
    requires Enabled(s, a)
  {
    match a
    case Tick => s.(clock := s.clock + 1)
    case Start(i, lag) => s.(calls := s.calls[i := s.calls[i].(pc := Started, now := s.clock - lag)])
    case Load(i) =>
      s.(calls := s.calls[i := s.calls[i].(pc := Trying, current := s.deadline, seen := s.due, retries := 0,
                                           swapsAtLoad := s.swaps, swapsAtSeen := s.swaps)])
    case Try(i, spurious) =>
      var c := s.calls[i];
      if !Wants(c.current, Word(c.now), Word(c.Due())) then s.(calls := s.calls[i := c.(pc := Done)])
      else if Swaps(s, c, spurious) then
        State(s.clock, Word(c.Due()), c.Due(), s.swaps + 1, s.calls[i := c.(pc := Done)])
      else
        s.(calls := s.calls[i := c.(current := s.deadline, seen := s.due, retries := c.retries + 1,
                                    swapsAtSeen := s.swaps)])
  }

  /** An exchange that fails, spuriously or because the word has changed, stores nothing; the call goes on with
      the word it found. One that succeeds stores the call's own deadline and ends it. */
  lemma TryMeaning(s: State, i: nat, spurious: bool)
    requires Enabled(s, Try(i, spurious))
    ensures var c, t := s.calls[i], Step(s, Try(i, spurious));
            && t.clock == s.clock && |t.calls| == |s.calls|
            && (forall j | 0 <= j < |s.calls| && j != i :: t.calls[j] == s.calls[j])
            && if !Wants(c.current, Word(c.now), Word(c.now + c.duration)) then
                 t.calls[i].pc.Done? && t.deadline == s.deadline && t.due == s.due
               else if spurious || s.deadline != c.current then
                 t.calls[i].pc.Trying? && t.calls[i].current == s.deadline && t.deadline == s.deadline && t.due == s.due
               else t.calls[i].pc.Done? && t.deadline == Word(c.now + c.duration) && t.due == c.now + c.duration
  {
  }

  // ---------- The 2^31 window ----------

  /** Bounds on durations, on the age of a call's time stamp while it runs, and on how long ago the
      deadline may have expired while a call runs. */
  datatype Limits = Limits(hold: nat, lag: nat, idle: nat)

  /** Durations and stamps for which the deadline cannot be moved back. */
  predicate Ordered(l: Limits) {
    l.hold + l.lag < W
  }

  predicate Sane(l: Limits) {
    Ordered(l) && l.idle <= W
  }

  predicate CallInWindow(l: Limits, s: State, c: Call) {
    c.Active() ==> s.clock - l.lag <= c.now <= s.clock && s.clock - s.due <= l.idle
  }

  /** What the callers and the passage of time must respect in every state. */
  predicate InWindow(l: Limits, s: State) {
    forall i | 0 <= i < |s.calls| :: s.calls[i].duration <= l.hold && CallInWindow(l, s, s.calls[i])
  }

  predicate Init(l: Limits, s: State) {
    && s.deadline == Word(s.due) && s.due <= s.clock + l.hold && s.swaps == 0
    && forall i | 0 <= i < |s.calls| :: s.calls[i].pc.Idle?
  }

  /** What holds of each call. */
  predicate CallInv(l: Limits, s: State, c: Call) {
    && (c.pc.Trying? ==>
          && c.current == Word(c.seen)
          && c.now - l.idle <= c.seen <= s.due)
    && (c.pc.Done? ==> c.Due() <= s.due)
  }

  /** The shared word stands for a deadline at most `hold` ticks ahead. */
  predicate Bound(l: Limits, s: State) {
    s.deadline == Word(s.due) && s.due <= s.clock + l.hold
  }

  predicate Inv(l: Limits, s: State) {
    Bound(l, s) && forall i | 0 <= i < |s.calls| :: CallInv(l, s, s.calls[i])
  }

  /** The guard compares the unbounded times, although `current` may be out of date. */
  lemma GuardMeaning(l: Limits, s: State, c: Call)
    requires Sane(l) && Inv(l, s) && CallInv(l, s, c) && CallInWindow(l, s, c)
    requires c.pc.Trying? && c.duration <= l.hold
    ensures Wants(c.current, Word(c.now), Word(c.Due())) <==> c.seen <= c.now || c.seen < c.Due()
  {
    SignedIsDifference(c.seen, c.now);
    if c.seen > c.now {
      SignedIsDifference(c.Due(), c.seen);
    }
  }

  /** No ABA: an exchange that finds the expected word finds the very deadline that was loaded. */
  lemma NoAba(l: Limits, s: State, c: Call)
    requires l.hold + l.lag + l.idle < M && Inv(l, s) && CallInv(l, s, c) && CallInWindow(l, s, c)
    requires c.pc.Trying? && s.deadline == c.current
    ensures s.due == c.seen
  {
    WordInjective(s.due, c.seen);
  }

  /** One step never moves the deadline back, however long ago it expired: an exchange succeeds only
      against the word in memory, and the guard orders that word rightly unless it has expired. */
  lemma StepMovesOn(l: Limits, s: State, a: Action)
    requires Ordered(l) && Bound(l, s) && Enabled(s, a) && InWindow(l, s)
    ensures Bound(l, Step(s, a))
    ensures s.due <= Step(s, a).due
  {
    if a.Try? {
      var c := s.calls[a.i];
      assert CallInWindow(l, s, c);
      if c.now < s.due {
        SignedIsDifference(s.due, c.now);
        SignedIsDifference(c.Due(), s.due);
      }
    }
  }

  /** One step keeps the invariant. */
  lemma StepKeepsInv(l: Limits, s: State, a: Action)
    requires Sane(l) && Inv(l, s) && Enabled(s, a)
    requires InWindow(l, s) && InWindow(l, Step(s, a))
    ensures Inv(l, Step(s, a))
  {
    var t := Step(s, a);
    StepMovesOn(l, s, a);
    if a.Try? {
      GuardMeaning(l, s, s.calls[a.i]);
    }
    forall j | 0 <= j < |t.calls| ensures CallInv(l, t, t.calls[j]) {
      assert CallInv(l, s, s.calls[j]);
      assert CallInWindow(l, t, t.calls[j]);
    }
  }

  // ---------- Runs ----------

  predicate Schedule(ss: seq<State>, actions: seq<Action>) {
    && |ss| == |actions| + 1
    && forall k | 0 <= k < |actions| :: Enabled(ss[k], actions[k]) && ss[k + 1] == Step(ss[k], actions[k])
  }

  predicate Run(l: Limits, ss: seq<State>, actions: seq<Action>) {
    && Schedule(ss, actions)
    && Init(l, ss[0])
    && forall k | 0 <= k < |ss| :: InWindow(l, ss[k])
  }

  lemma {:induction false} RunBound(l: Limits, ss: seq<State>, actions: seq<Action>, k: nat)
    requires Ordered(l) && Run(l, ss, actions) && k < |ss|
    ensures Bound(l, ss[k])
  {
    if k > 0 {
      RunBound(l, ss, actions, k - 1);
      StepMovesOn(l, ss[k - 1], actions[k - 1]);
    }
  }

  lemma {:induction false} RunInv(l: Limits, ss: seq<State>, actions: seq<Action>, k: nat)
    requires Sane(l) && Run(l, ss, actions) && k < |ss|
    ensures Inv(l, ss[k])
  {
    if k > 0 {
      RunInv(l, ss, actions, k - 1);
      assert InWindow(l, ss[k]);
      StepKeepsInv(l, ss[k - 1], actions[k - 1]);
    }
  }

  /** In every interleaving the deadline never decreases. */
  lemma {:induction false} DeadlineMonotone(l: Limits, ss: seq<State>, actions: seq<Action>, j: nat, k: nat)
    requires Ordered(l) && Run(l, ss, actions) && j <= k < |ss|
    ensures ss[j].due <= ss[k].due
    decreases k - j
  {
    if j < k {
      DeadlineMonotone(l, ss, actions, j, k - 1);
      RunBound(l, ss, actions, k - 1);
      StepMovesOn(l, ss[k - 1], actions[k - 1]);
    }
  }

  lemma {:induction false} DoneStays(l: Limits, ss: seq<State>, actions: seq<Action>, i: nat, j: nat, k: nat)
    requires Run(l, ss, actions) && j <= k < |ss| && i < |ss[j].calls| && ss[j].calls[i].pc.Done?
    ensures i < |ss[k].calls| && ss[k].calls[i] == ss[j].calls[i]
    decreases k - j
  {
    if j < k {
      DoneStays(l, ss, actions, i, j, k - 1);
      assert ss[k] == Step(ss[k - 1], actions[k - 1]);
    }
  }

  /** Once a call has returned, its whole interval is held: at every later state of every
      interleaving, for every query stamp in [now, now + duration) that is at most `lag` ticks old. */
  lemma HeldAfterReturn(l: Limits, ss: seq<State>, actions: seq<Action>, i: nat, j: nat, k: nat, t: int, peers: nat)
    requires Sane(l) && Run(l, ss, actions) && j <= k < |ss|
    requires i < |ss[j].calls| && ss[j].calls[i].pc.Done?
    requires ss[j].calls[i].now <= t < ss[j].calls[i].Due() && ss[k].clock - l.lag <= t
    ensures Held(Word(t), ss[k].deadline, peers)
  {
    RunInv(l, ss, actions, j);
    RunInv(l, ss, actions, k);
    DeadlineMonotone(l, ss, actions, j, k);
    assert CallInv(l, ss[j], ss[j].calls[i]);
    SignedIsDifference(ss[k].due, t);
  }

  // ---------- Stamps that are not old ----------

  /** How far ahead of the clock the code takes a word to be. */
  function Ahead(s: State, x: word): int {
    Signed(x, Word(s.clock))
  }

  lemma AheadOf(s: State, x: word)
    ensures x == Word(s.clock + Ahead(s, x)) && -W <= Ahead(s, x) < W
  {
    WordSum(s.clock, Ahead(s, x));
  }

  /** With no old stamps, what the code reads alone keeps the hold: every call that returned and still
      has time to go reads as held that long, and so does what a running call has read. */
  predicate FreshInv(s: State) {
    forall i | 0 <= i < |s.calls| :: FreshCall(s, s.calls[i])
  }

  predicate FreshCall(s: State, c: Call) {
    && (c.pc.Done? && c.Due() > s.clock ==> Ahead(s, s.deadline) >= c.Due() - s.clock)
    && (c.pc.Trying? && Ahead(s, c.current) > 0 ==> Ahead(s, s.deadline) >= Ahead(s, c.current))
  }

  /** The guard against a stamp that is the clock itself. */
  lemma FreshGuard(s: State, c: Call)
    requires c.now == s.clock && c.duration < W
    ensures Wants(c.current, Word(c.now), Word(c.Due()))
       <==> Ahead(s, c.current) <= 0 || Ahead(s, c.current) < c.duration
  {
    var ahead := Ahead(s, c.current);
    AheadOf(s, c.current);
    if ahead > 0 {
      SignedIsDifference(c.Due(), s.clock + ahead);
    }
  }

  lemma FreshTick(s: State, c: Call)
    requires FreshCall(s, c) && !c.Active()
    ensures FreshCall(Step(s, Tick), c)
  {
    if c.pc.Done? && c.Due() > s.clock + 1 {
      var ahead := Ahead(s, s.deadline);
      AheadOf(s, s.deadline);
      SignedIsDifference(s.clock + ahead, s.clock + 1);
    }
  }

  lemma StepKeepsFresh(l: Limits, s: State, a: Action)
    requires l.lag == 0 && l.hold < W && FreshInv(s) && Enabled(s, a)
    requires InWindow(l, s) && InWindow(l, Step(s, a))
    ensures FreshInv(Step(s, a))
  {
    var t := Step(s, a);
    if a.Try? {
      var c := s.calls[a.i];
      assert FreshCall(s, c) && CallInWindow(l, s, c);
      FreshGuard(s, c);
      SignedIsDifference(c.Due(), s.clock);
    }
    forall j | 0 <= j < |t.calls| ensures FreshCall(t, t.calls[j]) {
      assert FreshCall(s, s.calls[j]);
      if a.Tick? {
        assert CallInWindow(l, s, s.calls[j]) && CallInWindow(l, t, t.calls[j]);
        FreshTick(s, s.calls[j]);
      }
    }
  }

  lemma {:induction false} RunFresh(l: Limits, ss: seq<State>, actions: seq<Action>, k: nat)
    requires l.lag == 0 && l.hold < W && Run(l, ss, actions) && k < |ss|
    ensures FreshInv(ss[k])
  {
    if k > 0 {
      RunFresh(l, ss, actions, k - 1);
      assert InWindow(l, ss[k]);
      StepKeepsFresh(l, ss[k - 1], actions[k - 1]);
    }
  }

  lemma HeldWithoutLag(l: Limits, ss: seq<State>, actions: seq<Action>, i: nat, j: nat, k: nat, t: int)
    requires l.lag == 0 && l.hold < W && Run(l, ss, actions) && j <= k < |ss|
    requires i < |ss[j].calls| && ss[j].calls[i].pc.Done?
    requires ss[j].calls[i].now <= t < ss[j].calls[i].Due() && ss[k].clock <= t
    ensures Held(Word(t), ss[k].deadline, 0)
  {
    var s := ss[k];
    RunFresh(l, ss, actions, k);
    DoneStays(l, ss, actions, i, j, k);
    assert FreshCall(s, s.calls[i]);
    AheadOf(s, s.deadline);
    SignedIsDifference(s.clock + Ahead(s, s.deadline), t);
  }

  // ---------- Exactly when the promises hold ----------

  /** A run in which call i has returned by state j, and a stamp t of its interval is looked at in
      state k. */
  predicate Promised(l: Limits, ss: seq<State>, actions: seq<Action>, i: int, j: int, k: int, t: int) {
    && Run(l, ss, actions) && 0 <= j <= k < |ss|
    && 0 <= i < |ss[j].calls| && ss[j].calls[i].pc.Done?
    && ss[j].calls[i].now <= t < ss[j].calls[i].Due() && ss[k].clock - l.lag <= t
  }

  ghost predicate AlwaysHeld(l: Limits) {
    forall ss: seq<State>, actions: seq<Action>, i: int, j: int, k: int, t: int
      | Promised(l, ss, actions, i, j, k, t) :: Held(Word(t), ss[k].deadline, 0)
  }

  predicate Later(l: Limits, ss: seq<State>, actions: seq<Action>, j: int, k: int) {
    Run(l, ss, actions) && 0 <= j <= k < |ss|
  }

  ghost predicate NeverBack(l: Limits) {
    forall ss: seq<State>, actions: seq<Action>, j: int, k: int
      | Later(l, ss, actions, j, k) :: ss[j].due <= ss[k].due
  }

  /** A run that ends in s. */
  predicate RunTo(l: Limits, ss: seq<State>, actions: seq<Action>, s: State) {
    Run(l, ss, actions) && ss[|actions|] == s
  }

  /** One more step of a run. */
  lemma Extend(l: Limits, ss: seq<State>, actions: seq<Action>, s: State, a: Action, t: State)
    returns (ss': seq<State>, actions': seq<Action>)
    requires RunTo(l, ss, actions, s) && Enabled(s, a) && t == Step(s, a) && InWindow(l, t)
    ensures RunTo(l, ss', actions', t)
    ensures |actions'| == |actions| + 1 && |ss'| == |actions'| + 1 && ss <= ss'
  {
    ss', actions' := ss + [t], actions + [a];
  }

  lemma Begin(l: Limits, s: State) returns (ss: seq<State>, actions: seq<Action>)
    requires Init(l, s) && InWindow(l, s)
    ensures RunTo(l, ss, actions, s) && |actions| == 0 && |ss| == 1
  {
    ss, actions := [s], [];
  }

  predicate Grows(ss: seq<State>, actions: seq<Action>, ss': seq<State>, actions': seq<Action>, n: nat) {
    |actions'| == |actions| + n && |ss'| == |actions'| + 1 && ss <= ss'
  }

  /** Entering a call, when the deadline expired recently enough. */
  lemma Enters(l: Limits, ss: seq<State>, actions: seq<Action>, s: State, i: nat, lag: nat)
    returns (ss': seq<State>, actions': seq<Action>, t: State)
    requires RunTo(l, ss, actions, s) && InWindow(l, s) && s.clock - s.due <= l.idle
    requires i < |s.calls| && s.calls[i].pc.Idle? && lag <= l.lag
    ensures RunTo(l, ss', actions', t) && InWindow(l, t) && Grows(ss, actions, ss', actions', 1)
    ensures t == s.(calls := s.calls[i := s.calls[i].(pc := Started, now := s.clock - lag)])
  {
    t := Step(s, Start(i, lag));
    ss', actions' := Extend(l, ss, actions, s, Start(i, lag), t);
  }

  /** The rest of a call that nothing disturbs: read, and store or leave. */
  lemma Finishes(l: Limits, ss: seq<State>, actions: seq<Action>, s: State, i: nat)
    returns (ss': seq<State>, actions': seq<Action>, t: State)
    requires RunTo(l, ss, actions, s) && InWindow(l, s)
    requires i < |s.calls| && s.calls[i].pc.Started?
    requires var c := s.calls[i];
             Wants(s.deadline, Word(c.now), Word(c.Due())) ==>
               forall j | 0 <= j < |s.calls| && j != i :: !s.calls[j].Active()
    ensures RunTo(l, ss', actions', t) && InWindow(l, t) && Grows(ss, actions, ss', actions', 2)
    ensures |t.calls| == |s.calls| && t.clock == s.clock
    ensures forall j | 0 <= j < |s.calls| && j != i :: t.calls[j] == s.calls[j]
    ensures var c := s.calls[i];
            && t.calls[i].pc.Done? && t.calls[i].now == c.now && t.calls[i].duration == c.duration
            && if Wants(s.deadline, Word(c.now), Word(c.Due())) then t.due == c.Due() && t.deadline == Word(c.Due())
               else t.due == s.due && t.deadline == s.deadline
  {
    var r := Step(s, Load(i));
    ss', actions' := Extend(l, ss, actions, s, Load(i), r);
    t := Step(r, Try(i, false));
    ss', actions' := Extend(l, ss', actions', r, Try(i, false), t);
  }

  lemma Ticks(l: Limits, ss: seq<State>, actions: seq<Action>, s: State)
    returns (ss': seq<State>, actions': seq<Action>, t: State)
    requires RunTo(l, ss, actions, s) && InWindow(l, s.(clock := s.clock + 1))
    ensures RunTo(l, ss', actions', t) && InWindow(l, t) && Grows(ss, actions, ss', actions', 1)
    ensures t == s.(clock := s.clock + 1)
  {
    t := Step(s, Tick);
    ss', actions' := Extend(l, ss, actions, s, Tick, t);
  }

  /** Before two calls with these durations. */
  function Two(clock: int, due: int, first: nat, second: nat): State {
    State(clock, Word(due), due, 0, [Call(Idle, 0, first, 0, 0, 0, 0, 0), Call(Idle, 0, second, 0, 0, 0, 0, 0)])
  }

  lemma OverwritingGuards(L: nat, d: nat)
    requires L + d == W
    ensures Wants(Word(W), Word(W), Word(W + d)) && Wants(Word(W + d), Word(W - L), Word(W - L))
  {
    SignedIsDifference(W, W);
    SignedOfDifference(W + d, W - L);
  }

  /** Two calls, the first with duration d and stamp W, the second with duration 0 and a stamp L ticks
      older. When L + d is 2^31 the second takes the first one's deadline for an expired one and
      replaces it. */
  lemma OverwritingRun(l: Limits, L: nat, d: nat) returns (ss: seq<State>, actions: seq<Action>)
    requires L <= l.lag && d <= l.hold && L + d == W
    ensures Run(l, ss, actions) && |actions| == 6
    ensures ss[3].due == W + d && ss[6].due == W - L && ss[6].deadline == Word(W - L)
    ensures ss[6].clock == W && |ss[6].calls| == 2
    ensures var c := ss[6].calls[0]; c.pc.Done? && c.now == W && c.Due() == W + d
  {
    hide Run, Wants, Word;
    OverwritingGuards(L, d);
    var s := Two(W, W, d, 0);
    ss, actions := Begin(l, s);
    ss, actions, s := Enters(l, ss, actions, s, 0, 0);
    ss, actions, s := Finishes(l, ss, actions, s, 0);
    assert ss[3].due == W + d;
    ss, actions, s := Enters(l, ss, actions, s, 1, L);
    ss, actions, s := Finishes(l, ss, actions, s, 1);
  }

  lemma StaleGuards()
    ensures !Wants(Word(0), Word(W + 1), Word(W + 2)) && Wants(Word(0), Word(W), Word(W))
    ensures !Held(Word(W + 1), Word(W), 0)
  {
    hide Word;
    SignedOfDifference(0, W + 1);
    SignedOfDifference(W + 2, 0);
    SignedOfDifference(0, W);
    SignedOfDifference(W, W + 1);
    StaleValues();
  }

  lemma StaleValues()
    ensures Int32(-(W + 1)) == W - 1 && Int32(W + 2) == W + 2 - M && Int32(-W) == -W && Int32(-1) == -1
  {
  }

  /** A deadline that expired more than 2^31 ticks ago reads as one far ahead. One call returns without
      storing anything, relying on it; another, whose stamp is one tick older, takes it for expired and
      replaces it, and the first call's interval is not held. */
  lemma StaleDeadlineLosesHold(l: Limits) returns (ss: seq<State>, actions: seq<Action>)
    requires l.hold >= 1 && l.lag >= 1 && l.idle > W
    ensures |actions| == 7 && Promised(l, ss, actions, 0, 7, 7, W + 1)
    ensures !Held(Word(W + 1), ss[7].deadline, 0)
  {
    hide Run, Wants, Held, Word;
    StaleGuards();
    var s := Two(W, 0, 1, 0);
    ss, actions := Begin(l, s);
    ss, actions, s := Enters(l, ss, actions, s, 1, 0);
    ss, actions, s := Ticks(l, ss, actions, s);
    ss, actions, s := Enters(l, ss, actions, s, 0, 0);
    ss, actions, s := Finishes(l, ss, actions, s, 0);
    ss, actions, s := Finishes(l, ss, actions, s, 1);
  }

  /** For all bounds: every call's interval is held in every run iff durations are 0, or duration and
      age of a stamp stay below 2^31 together and either stamps are never old or no call runs when the
      deadline expired more than 2^31 ticks ago. */
  lemma HeldExactly(l: Limits)
    ensures AlwaysHeld(l) <==> l.hold == 0 || (Ordered(l) && (l.lag == 0 || l.idle <= W))
  {
    if l.hold == 0 || (Ordered(l) && (l.lag == 0 || l.idle <= W)) {
      forall ss: seq<State>, actions: seq<Action>, i: int, j: int, k: int, t: int
        | Promised(l, ss, actions, i, j, k, t)
        ensures Held(Word(t), ss[k].deadline, 0)
      {
        assert InWindow(l, ss[j]);
        if l.lag == 0 {
          HeldWithoutLag(l, ss, actions, i, j, k, t);
        } else {
          HeldAfterReturn(l, ss, actions, i, j, k, t, 0);
        }
      }
    } else if !Ordered(l) {
      var L := if l.lag < W then l.lag else W - 1;
      var ss, actions := OverwritingRun(l, L, W - L);
      assert Promised(l, ss, actions, 0, 6, 6, W);
      SignedIsDifference(W - L, W);
    } else {
      var ss, actions := StaleDeadlineLosesHold(l);
    }
  }

  /** For all bounds: the deadline never decreases in any run iff duration and age of a stamp stay below
      2^31 together. */
  lemma MonotoneExactly(l: Limits)
    ensures NeverBack(l) <==> Ordered(l)
  {
    if Ordered(l) {
      forall ss: seq<State>, actions: seq<Action>, j: int, k: int | Later(l, ss, actions, j, k)
        ensures ss[j].due <= ss[k].due
      {
        DeadlineMonotone(l, ss, actions, j, k);
      }
    } else {
      var L := if l.lag < W then l.lag else W;
      var ss, actions := OverwritingRun(l, L, W - L);
      assert Later(l, ss, actions, 3, 6);
    }
  }

  // ---------- Retries and termination ----------

  /** Bookkeeping of the retry counters when the exchange never fails spuriously. */
  predicate RetryInv(s: State, c: Call) {
    c.pc.Trying? ==>
      && c.swapsAtLoad + c.retries <= c.swapsAtSeen <= s.swaps
      && (c.current != s.deadline ==> c.swapsAtSeen < s.swaps)
  }

  predicate Strong(a: Action) {
    a.Try? ==> !a.spurious
  }

  /** Each retry of a call is paid for by another call's successful exchange since it began. */
  lemma StepKeepsRetryInv(s: State, a: Action, j: nat)
    requires Enabled(s, a) && Strong(a) && j < |s.calls| && RetryInv(s, s.calls[j])
    ensures RetryInv(Step(s, a), Step(s, a).calls[j])
  {
  }

  lemma {:induction false} RetriesBounded(ss: seq<State>, actions: seq<Action>, i: nat, k: nat)
    requires Schedule(ss, actions) && k < |ss| && i < |ss[0].calls| && ss[0].calls[i].pc.Idle?
    requires forall m | 0 <= m < |actions| :: Strong(actions[m])
    ensures i < |ss[k].calls| && RetryInv(ss[k], ss[k].calls[i])
    ensures ss[k].calls[i].pc.Trying? ==> ss[k].calls[i].retries <= ss[k].swaps - ss[k].calls[i].swapsAtLoad
  {
    if k > 0 {
      RetriesBounded(ss, actions, i, k - 1);
      assert Strong(actions[k - 1]);
      StepKeepsRetryInv(ss[k - 1], actions[k - 1], i);
    }
  }

  /** Work a call still has to do when n calls share the word. A call whose `current` is out of date
      owes one more step; finishing releases enough to pay for outdating all the others. */
  function Weight(n: nat, deadline: word, c: Call): nat {
    match c.pc
    case Done => 0
    case Idle => n + 3
    case Started => n + 2
    case Trying => if c.current == deadline then n + 1 else n + 2
  }

  function Work(n: nat, deadline: word, calls: seq<Call>): nat {
    if calls == [] then 0
    else Work(n, deadline, calls[..|calls| - 1]) + Weight(n, deadline, calls[|calls| - 1])
  }

  lemma {:induction false} WorkUpdate(n: nat, deadline: word, calls: seq<Call>, i: nat, c: Call)
    requires i < |calls|
    ensures Work(n, deadline, calls[i := c])
         == Work(n, deadline, calls) - Weight(n, deadline, calls[i]) + Weight(n, deadline, c)
  {
    var last := |calls| - 1;
    if i == last {
      assert calls[i := c][..last] == calls[..last];
    } else {
      assert calls[i := c][..last] == calls[..last][i := c];
      WorkUpdate(n, deadline, calls[..last], i, c);
    }
  }

  lemma {:induction false} WorkAfterSwap(n: nat, before: word, after: word, calls: seq<Call>)
    ensures Work(n, after, calls) <= Work(n, before, calls) + |calls|
  {
    if calls != [] {
      WorkAfterSwap(n, before, after, calls[..|calls| - 1]);
    }
  }

  /** Without spurious failures every step of a call strictly reduces the work left. */
  lemma StepReducesWork(s: State, a: Action)
    requires Enabled(s, a) && Strong(a) && !a.Tick?
    ensures var n := |s.calls|;
            && |Step(s, a).calls| == n
            && Work(n, Step(s, a).deadline, Step(s, a).calls) < Work(n, s.deadline, s.calls)
  {
    var n := |s.calls|;
    var t := Step(s, a);
    WorkUpdate(n, s.deadline, s.calls, a.i, t.calls[a.i]);
    if t.deadline != s.deadline {
      WorkAfterSwap(n, s.deadline, t.deadline, t.calls);
    }
  }

  lemma {:induction false} WorkBound(n: nat, deadline: word, calls: seq<Call>)
    ensures Work(n, deadline, calls) <= |calls| * (n + 3)
  {
    if calls != [] {
      WorkBound(n, deadline, calls[..|calls| - 1]);
      assert |calls| * (n + 3) == (|calls| - 1) * (n + 3) + (n + 3);
    }
  }

  /** The steps of calls in a schedule; time passes in the others. */
  function CallSteps(actions: seq<Action>): nat {
    if actions == [] then 0
    else CallSteps(actions[..|actions| - 1]) + if actions[|actions| - 1].Tick? then 0 else 1
  }

  /** Any finite set of calls terminates in every schedule: n calls take at most n * (n + 3) steps
      between them, however they interleave and however time passes. */
  lemma {:induction false} CallsTerminate(ss: seq<State>, actions: seq<Action>)
    requires Schedule(ss, actions) && forall k | 0 <= k < |actions| :: Strong(actions[k])
    ensures var n := |ss[0].calls|;
            CallSteps(actions) + Work(n, ss[|actions|].deadline, ss[|actions|].calls) <= n * (n + 3)
            && |ss[|actions|].calls| == n
    decreases |actions|
  {
    hide Work, Wants;
    var n := |ss[0].calls|;
    if actions == [] {
      WorkBound(n, ss[0].deadline, ss[0].calls);
    } else {
      var k := |actions| - 1;
      CallsTerminate(ss[..k + 1], actions[..k]);
      assert Enabled(ss[k], actions[k]) && ss[k + 1] == Step(ss[k], actions[k]);
      if !actions[k].Tick? {
        StepReducesWork(ss[k], actions[k]);
      }
    }
  }
}

/** `edgez_scan_submit`: any number of threads submit scan requests through one atomic busy flag,
    which completion callbacks clear on their own. */
module ScanRequest {

  /** Where one submission is. `Queued` lasts until its completion callback clears the flag, which may
      be before or after `enqueue` returns to the submitter. */
  datatype Phase =
    | Ready          // edgez_scan_submit not yet called
    | Rejected       // the compare-exchange failed
    | Claimed        // inside enqueue, request not queued yet
    | EnqueueFailed  // enqueue refused the request, flag not yet restored
    | Released       // flag restored after a failed enqueue
    | Queued         // the request is outstanding
    | Completed      // the completion callback has cleared the flag

  datatype Submission = Submission(phase: Phase, returned: bool)

  datatype State = State(busy: bool, subs: seq<Submission>)

  datatype Action =
    | CompareExchange(i: nat)
    | EnqueueAccepts(i: nat)
    | EnqueueRefuses(i: nat)
    | StoreFalse(i: nat)
    | EnqueueReturns(i: nat)
    | Complete(i: nat)
    | CompleteRefused(i: nat)   // a completion callback for a request that enqueue refused

  /** What the header demands of `enqueue`: no completion for a refused request. */
  predicate Conforming(a: Action) {
    !a.CompleteRefused?
  }

  predicate Init(s: State) {
    !s.busy && forall i | 0 <= i < |s.subs| :: s.subs[i] == Submission(Ready, false)
  }

  predicate Enabled(s: State, a: Action) {
    && a.i < |s.subs|
    && var sub := s.subs[a.i];
       match a
       case CompareExchange(_) => sub.phase.Ready?
       case EnqueueAccepts(_) => sub.phase.Claimed?
       case EnqueueRefuses(_) => sub.phase.Claimed?
       case StoreFalse(_) => sub.phase.EnqueueFailed?
       case EnqueueReturns(_) => (sub.phase.Queued? || sub.phase.Completed?) && !sub.returned
       case Complete(_) => sub.phase.Queued?
       case CompleteRefused(_) => sub.phase.EnqueueFailed? || sub.phase.Released?
  }

  /** One atomic step. A queued request completes once. */
  function Step(s: State, a: Action): State
    requires Enabled(s, a)
  {
    var sub := s.subs[a.i];
    match a
    case CompareExchange(i) =>
      if s.busy then s.(subs := s.subs[i := Submission(Rejected, true)])
      else State(true, s.subs[i := Submission(Claimed, false)])
    case EnqueueAccepts(i) => s.(subs := s.subs[i := sub.(phase := Queued)])
    case EnqueueRefuses(i) => s.(subs := s.subs[i := sub.(phase := EnqueueFailed)])
    case StoreFalse(i) => State(false, s.subs[i := Submission(Released, true)])
    case EnqueueReturns(i) => s.(subs := s.subs[i := sub.(returned := true)])
    case Complete(i) => State(false, s.subs[i := sub.(phase := Completed)])
    case CompleteRefused(_) => s.(busy := false)
  }

  /** A submission that owns the flag: its submitter is between the exchange and the end of a failed
      enqueue, or its request is outstanding. */
  predicate Owns(sub: Submission) {
    sub.phase.Claimed? || sub.phase.EnqueueFailed? || sub.phase.Queued?
  }

  predicate OwnsAt(s: State, i: int) {
    0 <= i < |s.subs| && Owns(s.subs[i])
  }

  /** The flag is set exactly while some submission owns it, and at most one does. */
  ghost predicate Exclusive(s: State) {
    && (s.busy <==> exists i :: OwnsAt(s, i))
    && forall i, j | OwnsAt(s, i) && OwnsAt(s, j) :: i == j
  }

  /** A step keeps it, except exactly a late completion of a refused request while the flag is set. */
  lemma StepKeepsExclusive(s: State, a: Action)
    requires Exclusive(s) && Enabled(s, a)
    ensures Exclusive(Step(s, a)) <==> Conforming(a) || !s.busy
  {
    var t := Step(s, a);
    assert forall j | 0 <= j < |s.subs| && j != a.i :: t.subs[j] == s.subs[j];
    if Owns(s.subs[a.i]) {
      assert OwnsAt(s, a.i);
    }
    if Owns(t.subs[a.i]) {
      assert OwnsAt(t, a.i);
    }
    assert forall j | j != a.i :: OwnsAt(t, j) <==> OwnsAt(s, j);
  }

  predicate Schedule(ss: seq<State>, actions: seq<Action>) {
    && |ss| == |actions| + 1
    && Init(ss[0])
    && forall k | 0 <= k < |actions| :: Enabled(ss[k], actions[k]) && ss[k + 1] == Step(ss[k], actions[k])
  }

  predicate Run(ss: seq<State>, actions: seq<Action>) {
    Schedule(ss, actions) && forall k | 0 <= k < |actions| :: Conforming(actions[k])
  }

  /** Requests that are outstanding. */
  function Outstanding(s: State): set<int> {
    set i | 0 <= i < |s.subs| && s.subs[i].phase.Queued?
  }

  /** Over every interleaving: the flag follows ownership, at most one request is outstanding, and an
      idle system has a clear flag. */
  lemma {:induction false} AtMostOneOutstanding(ss: seq<State>, actions: seq<Action>, k: nat)
    requires Run(ss, actions) && k < |ss|
    ensures Exclusive(ss[k])
    ensures |Outstanding(ss[k])| <= 1
    ensures (forall i | 0 <= i < |ss[k].subs| :: !Owns(ss[k].subs[i])) ==> !ss[k].busy
    decreases k
  {
    if k > 0 {
      AtMostOneOutstanding(ss, actions, k - 1);
      assert Conforming(actions[k - 1]);
      StepKeepsExclusive(ss[k - 1], actions[k - 1]);
    }
    var out := Outstanding(ss[k]);
    if out != {} {
      var i :| i in out;
      assert OwnsAt(ss[k], i);
      forall j | j in out ensures j == i {
        assert OwnsAt(ss[k], j);
      }
      assert out == {i};
    }
  }

  /** A submitter is turned away only while another submission owns the flag. */
  lemma RejectedOnlyWhileOwned(s: State, i: nat)
    requires Exclusive(s) && Enabled(s, CompareExchange(i))
    ensures Step(s, CompareExchange(i)).subs[i].phase.Rejected? <==> exists j :: j != i && OwnsAt(s, j)
  {
    if s.busy {
      var j :| OwnsAt(s, j);
      assert j != i;
    }
  }

  lemma Extend(ss: seq<State>, actions: seq<Action>, s: State, a: Action, t: State)
    returns (ss': seq<State>, actions': seq<Action>)
    requires Schedule(ss, actions) && ss[|actions|] == s && Enabled(s, a) && t == Step(s, a)
    ensures Schedule(ss', actions') && actions' == actions + [a] && ss'[|actions'|] == t
  {
    ss', actions' := ss + [t], actions + [a];
  }

  function Three(busy: bool, a: Submission, b: Submission, c: Submission): State {
    State(busy, [a, b, c])
  }

  /** The assumption is needed. In this run of three submissions the only step against it is one late
      completion of a refused request, which clears the flag under the request that is queued, so that
      a third submission is queued beside it. */
  lemma CompletionAfterRefusalBreaks() returns (ss: seq<State>, actions: seq<Action>)
    ensures Schedule(ss, actions) && |actions| == 8
    ensures forall k | 0 <= k < 8 :: Conforming(actions[k]) <==> k != 5
    ensures !Exclusive(ss[8]) && Outstanding(ss[8]) == {1, 2}
  {
    hide Schedule;
    var ready, claimed, queued := Submission(Ready, false), Submission(Claimed, false), Submission(Queued, false);
    var failed, released := Submission(EnqueueFailed, false), Submission(Released, true);
    var s0 := Three(false, ready, ready, ready);
    ss, actions := Start(s0);
    var s1 := Three(true, claimed, ready, ready);
    ss, actions := Extend(ss, actions, s0, CompareExchange(0), s1);
    var s2 := Three(true, failed, ready, ready);
    ss, actions := Extend(ss, actions, s1, EnqueueRefuses(0), s2);
    var s3 := Three(false, released, ready, ready);
    ss, actions := Extend(ss, actions, s2, StoreFalse(0), s3);
    var s4 := Three(true, released, claimed, ready);
    ss, actions := Extend(ss, actions, s3, CompareExchange(1), s4);
    var s5 := Three(true, released, queued, ready);
    ss, actions := Extend(ss, actions, s4, EnqueueAccepts(1), s5);
    var s6 := Three(false, released, queued, ready);
    ss, actions := Extend(ss, actions, s5, CompleteRefused(0), s6);
    var s7 := Three(true, released, queued, claimed);
    ss, actions := Extend(ss, actions, s6, CompareExchange(2), s7);
    var s8 := Three(true, released, queued, queued);
    ss, actions := Extend(ss, actions, s7, EnqueueAccepts(2), s8);
    assert OwnsAt(s8, 1) && OwnsAt(s8, 2);
  }

  lemma Start(s: State) returns (ss: seq<State>, actions: seq<Action>)
    requires Init(s)
    ensures Schedule(ss, actions) && actions == [] && ss[|actions|] == s
  {
    ss, actions := [s], [];
  }
}

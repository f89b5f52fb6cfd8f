/** `edgez_mesh_should_recover_unknown_peer`: a fixed table of per-transmitter cooldowns with 32-bit
    millisecond stamps and eviction of the oldest entry. */
module PeerRecovery {
  import opened Words

  type Mac = a: seq<uint8> | |a| == 6 witness [0, 0, 0, 0, 0, 0]

  datatype Peer = Peer(addr: Mac, retryAfter: word, valid: bool)

  datatype Event = Event(transmitter: Mac, now: word, meshMode: bool, protectedFrame: bool,
                         dataFrame: bool, multicast: bool)
  {
    predicate Relevant() { meshMode && protectedFrame && dataFrame && !multicast }
  }

  /** A possibly null event pointer. */
  datatype EventPtr = NoEvent | To(event: Event)

  datatype Choice = Deny | Use(slot: nat)

  /** The table search from entry i on, `slot` being the best candidate so far. */
  function Search(peers: seq<Peer>, a: Mac, now: word, i: nat, slot: nat): (c: Choice)
    requires i <= |peers| && slot < |peers|
    ensures c.Use? ==> c.slot < |peers|
    decreases |peers| - i
  {
    if i == |peers| then Use(slot)
    else if peers[i].valid && peers[i].addr == a then
      if Signed(now, peers[i].retryAfter) < 0 then Deny else Use(i)
    else if !peers[i].valid then Use(i)
    else Search(peers, a, now, i + 1,
                if Signed(peers[i].retryAfter, peers[slot].retryAfter) < 0 then i else slot)
  }

  function Decide(peers: seq<Peer>, e: Event): Choice {
    if peers == [] || !e.Relevant() then Deny else Search(peers, e.transmitter, e.now, 0, 0)
  }

  /** The table after an event. */
  function Update(peers: seq<Peer>, cooldown: word, e: Event): seq<Peer> {
    match Decide(peers, e)
    case Deny => peers
    case Use(slot) => peers[slot := Peer(e.transmitter, Word(e.now + cooldown), true)]
  }

  predicate InTable(peers: seq<Peer>, a: Mac) {
    exists i | 0 <= i < |peers| :: peers[i].valid && peers[i].addr == a
  }

  /** Whoever has no valid entry finds a place, whatever the table. */
  lemma {:induction false} StrangerGranted(peers: seq<Peer>, a: Mac, now: word, i: nat, slot: nat)
    requires i <= |peers| && slot < |peers| && !InTable(peers, a)
    ensures Search(peers, a, now, i, slot).Use?
    decreases |peers| - i
  {
    if i < |peers| && peers[i].valid {
      StrangerGranted(peers, a, now, i + 1,
                      if Signed(peers[i].retryAfter, peers[slot].retryAfter) < 0 then i else slot);
    }
  }

  class Policy {
    const peers: array?<Peer>
    var cooldown: word

    constructor (peers: array?<Peer>, cooldown: word)
      ensures this.peers == peers && this.cooldown == cooldown
    {
      this.peers, this.cooldown := peers, cooldown;
    }
  }

  method ShouldRecover(policy: Policy?, event: EventPtr) returns (recover: bool)
    modifies if policy != null && policy.peers != null then {policy.peers} else {}
    ensures policy == null || policy.peers == null || event.NoEvent? ==> !recover
    ensures policy != null && policy.peers != null ==>
              if event.NoEvent? then policy.peers[..] == old(policy.peers[..])
              else
                && recover == Decide(old(policy.peers[..]), event.event).Use?
                && policy.peers[..] == Update(old(policy.peers[..]), policy.cooldown, event.event)
    ensures policy != null && policy.peers != null && event.To?
            && (|| !event.event.meshMode || !event.event.protectedFrame || !event.event.dataFrame
                || event.event.multicast) ==>
              !recover && policy.peers[..] == old(policy.peers[..])
    ensures policy != null && policy.peers != null && event.To? && policy.peers.Length > 0
            && event.event.meshMode && event.event.protectedFrame && event.event.dataFrame && !event.event.multicast
            && old(!InTable(policy.peers[..], event.event.transmitter)) ==>
              recover
    ensures policy != null && policy.peers != null && !recover ==> policy.peers[..] == old(policy.peers[..])
    ensures recover ==>
              exists slot | 0 <= slot < policy.peers.Length ::
                && policy.peers[slot]
                   == Peer(event.event.transmitter, (event.event.now + policy.cooldown) % 0x1_0000_0000, true)
                && forall k | 0 <= k < policy.peers.Length && k != slot :: policy.peers[k] == old(policy.peers[k])
  {
    if policy == null || event.NoEvent? || policy.peers == null || policy.peers.Length == 0
       || !event.event.meshMode || !event.event.protectedFrame || !event.event.dataFrame
       || event.event.multicast {
      return false;
    }
    var e, peers := event.event, policy.peers;
    if !InTable(peers[..], e.transmitter) {
      StrangerGranted(peers[..], e.transmitter, e.now, 0, 0);
    }
    var slot, i := 0, 0;
    while i < peers.Length
      invariant 0 <= i <= peers.Length && 0 <= slot < peers.Length
      invariant peers[..] == old(peers[..])
      invariant Decide(peers[..], e) == Search(peers[..], e.transmitter, e.now, i, slot)
    {
      var peer := peers[i];
      if peer.valid && peer.addr == e.transmitter {
        if Signed(e.now, peer.retryAfter) < 0 {
          return false;
        }
        slot := i;
        break;
      }
      if !peer.valid {
        slot := i;
        break;
      }
      if Signed(peer.retryAfter, peers[slot].retryAfter) < 0 {
        slot := i;
      }
      i := i + 1;
    }
    assert Decide(peers[..], e) == Use(slot);
    peers[slot] := Peer(e.transmitter, Word(e.now + policy.cooldown), true);
    return true;
  }

  // ---------- The table against the grants it records ----------

  /** Unbounded time of the latest grant to each transmitter that was ever granted. */
  type Grants = map<Mac, int>

  /** Valid entries form a prefix and have pairwise distinct addresses. */
  predicate Shaped(peers: seq<Peer>) {
    && (forall i, j | 0 <= i < j < |peers| :: peers[j].valid ==> peers[i].valid)
    && forall i, j | 0 <= i < j < |peers| && peers[i].valid && peers[j].valid :: peers[i].addr != peers[j].addr
  }

  predicate Full(peers: seq<Peer>) {
    forall i | 0 <= i < |peers| :: peers[i].valid
  }

  /** Every entry carries the end of the cooldown of its address's latest grant. */
  predicate Stamped(peers: seq<Peer>, cooldown: word, last: Grants) {
    forall i | 0 <= i < |peers| && peers[i].valid ::
      peers[i].addr in last && peers[i].retryAfter == Word(last[peers[i].addr] + cooldown)
  }

  /** The table holds everyone ever granted; or it is full, and nobody outside was granted later than
      anybody inside. */
  ghost predicate MostRecent(peers: seq<Peer>, last: Grants) {
    forall a | a in last && !InTable(peers, a) ::
      && Full(peers)
      && forall i | 0 <= i < |peers| && peers[i].valid && peers[i].addr in last :: last[a] <= last[peers[i].addr]
  }

  predicate Live(peers: seq<Peer>, last: Grants) {
    forall i, j | 0 <= i < |peers| && 0 <= j < |peers|
                  && peers[i].valid && peers[j].valid && peers[i].addr in last && peers[j].addr in last ::
      last[peers[i].addr] - last[peers[j].addr] < W
  }

  /** Entry s was granted no later than any of the first n. */
  predicate Oldest(peers: seq<Peer>, last: Grants, s: nat, n: nat)
    requires s < |peers| && n <= |peers|
  {
    && peers[s].addr in last
    && forall k | 0 <= k < n && peers[k].addr in last :: last[peers[s].addr] <= last[peers[k].addr]
  }

  /** One comparison of the search. */
  lemma OldestStep(peers: seq<Peer>, cooldown: word, last: Grants, i: nat, slot: nat)
    requires Stamped(peers, cooldown, last) && Live(peers, last)
    requires slot <= i < |peers| && peers[i].valid && peers[slot].valid && Oldest(peers, last, slot, i)
    ensures Oldest(peers, last, if Signed(peers[i].retryAfter, peers[slot].retryAfter) < 0 then i else slot, i + 1)
  {
    SignedIsDifference(last[peers[i].addr] + cooldown, last[peers[slot].addr] + cooldown);
  }

  /** The transmitter has an entry whose cooldown, as the code reads it, still runs. */
  predicate Cooling(peers: seq<Peer>, a: Mac, now: word) {
    exists i | 0 <= i < |peers| :: peers[i].valid && peers[i].addr == a && Signed(now, peers[i].retryAfter) < 0
  }

  /** What the search returns in a shaped table: a refusal only for a transmitter still cooling down; the
      transmitter's own entry if it has one, else the first free entry, else, as long as the stamps are
      live, an entry granted no later than any other. */
  lemma {:induction false} SearchMeaning(peers: seq<Peer>, cooldown: word, last: Grants, a: Mac, now: word,
                                         i: nat, slot: nat)
    requires Shaped(peers) && Stamped(peers, cooldown, last)
    requires slot <= i <= |peers| && slot < |peers|
    requires forall k | 0 <= k < i :: peers[k].valid && peers[k].addr != a
    requires peers[slot].valid && Live(peers, last) ==> Oldest(peers, last, slot, i)
    ensures match Search(peers, a, now, i, slot)
            case Deny => Cooling(peers, a, now)
            case Use(s) =>
              if InTable(peers, a) then
                peers[s].valid && peers[s].addr == a && Signed(now, peers[s].retryAfter) >= 0
              else if !Full(peers) then !peers[s].valid && forall k | 0 <= k < s :: peers[k].valid
              else Live(peers, last) ==> Oldest(peers, last, s, |peers|)
    decreases |peers| - i
  {
    hide Signed, Stamped, Live, Oldest;
    if i < |peers| && peers[i].valid && peers[i].addr != a {
      if Live(peers, last) {
        OldestStep(peers, cooldown, last, i, slot);
      }
      SearchMeaning(peers, cooldown, last, a, now, i + 1,
                    if Signed(peers[i].retryAfter, peers[slot].retryAfter) < 0 then i else slot);
    }
  }

  lemma DecideMeaning(peers: seq<Peer>, cooldown: word, last: Grants, e: Event)
    requires Shaped(peers) && Stamped(peers, cooldown, last)
    ensures Decide(peers, e).Use? ==>
              var s := Decide(peers, e).slot;
              if InTable(peers, e.transmitter) then
                peers[s].valid && peers[s].addr == e.transmitter && Signed(e.now, peers[s].retryAfter) >= 0
              else if !Full(peers) then !peers[s].valid && forall k | 0 <= k < s :: peers[k].valid
              else Live(peers, last) ==> Oldest(peers, last, s, |peers|)
  {
    if peers != [] {
      SearchMeaning(peers, cooldown, last, e.transmitter, e.now, 0, 0);
    }
  }

  // ---------- One event ----------

  /** A table, the grants behind it and the time of the latest event. */
  datatype System = System(peers: seq<Peer>, last: Grants, time: int)

  predicate Granted(s: System, e: Event) {
    Decide(s.peers, e).Use?
  }

  /** An event at unbounded time t. */
  function Step(s: System, cooldown: word, e: Event, t: int): System {
    System(Update(s.peers, cooldown, e),
           if Granted(s, e) then s.last[e.transmitter := t] else s.last,
           t)
  }

  predicate Timed(s: System, e: Event, t: int) {
    s.time <= t && e.now == Word(t)
  }

  predicate Sound(s: System, cooldown: word) {
    && Shaped(s.peers)
    && Stamped(s.peers, cooldown, s.last)
    && forall a | a in s.last :: s.last[a] <= s.time
  }

  lemma StepKeepsSound(s: System, cooldown: word, e: Event, t: int)
    requires Sound(s, cooldown) && Timed(s, e, t)
    ensures Sound(Step(s, cooldown, e, t), cooldown)
  {
    if Granted(s, e) {
      DecideMeaning(s.peers, cooldown, s.last, e);
      WordSum(t, cooldown);
      var slot := Decide(s.peers, e).slot;
      var peers := Step(s, cooldown, e, t).peers;
      assert forall k | 0 <= k < |peers| && k != slot :: peers[k] == s.peers[k];
      if !InTable(s.peers, e.transmitter) {
        assert forall k | 0 <= k < |peers| && s.peers[k].valid :: s.peers[k].addr != e.transmitter;
      }
    }
  }

  /** The table keeps the most recently granted transmitters. */
  lemma StepKeepsMostRecent(s: System, cooldown: word, e: Event, t: int)
    requires Sound(s, cooldown) && Timed(s, e, t)
    requires MostRecent(s.peers, s.last) && Live(s.peers, s.last)
    ensures MostRecent(Step(s, cooldown, e, t).peers, Step(s, cooldown, e, t).last)
  {
    if Granted(s, e) {
      DecideMeaning(s.peers, cooldown, s.last, e);
      var slot := Decide(s.peers, e).slot;
      var next := Step(s, cooldown, e, t);
      var peers := next.peers;
      assert peers[slot].addr == e.transmitter && peers[slot].valid;
      assert forall k | 0 <= k < |peers| && k != slot :: peers[k] == s.peers[k];
      forall a | a in next.last && !InTable(peers, a)
        ensures Full(peers)
        ensures forall i | 0 <= i < |peers| && peers[i].valid && peers[i].addr in next.last ::
                  next.last[a] <= next.last[peers[i].addr]
      {
        assert a != e.transmitter;
        if InTable(s.peers, a) {
          var k :| 0 <= k < |s.peers| && s.peers[k].valid && s.peers[k].addr == a;
          assert k == slot;
        }
      }
    }
  }

  /** A full-table miss evicts an entry granted no later than any other, and only that one. */
  lemma EvictsLeastRecent(s: System, cooldown: word, e: Event, t: int)
    requires Sound(s, cooldown) && Timed(s, e, t) && Live(s.peers, s.last)
    requires s.peers != [] && e.Relevant() && Full(s.peers) && !InTable(s.peers, e.transmitter)
    ensures Granted(s, e)
    ensures var slot := Decide(s.peers, e).slot;
            var next := Step(s, cooldown, e, t).peers;
            && next[slot].addr == e.transmitter
            && (forall k | 0 <= k < |next| && k != slot :: next[k] == s.peers[k])
            && Oldest(s.peers, s.last, slot, |s.peers|)
  {
    SearchMeaning(s.peers, cooldown, s.last, e.transmitter, e.now, 0, 0);
    DecideMeaning(s.peers, cooldown, s.last, e);
  }

  /** The entry of a transmitter decides alone. */
  lemma {:induction false} SearchFindsEntry(peers: seq<Peer>, a: Mac, now: word, k: nat, i: nat, slot: nat)
    requires Shaped(peers) && i <= k < |peers| && slot < |peers| && peers[k].valid && peers[k].addr == a
    ensures Search(peers, a, now, i, slot) == if Signed(now, peers[k].retryAfter) < 0 then Deny else Use(k)
    decreases k - i
  {
    if i < k {
      SearchFindsEntry(peers, a, now, k, i + 1,
                       if Signed(peers[i].retryAfter, peers[slot].retryAfter) < 0 then i else slot);
    }
  }

  /** How long ago the cooldown of a transmitter ended; negative while it runs. */
  function Overdue(s: System, cooldown: word, a: Mac, t: int): int
    requires a in s.last
  {
    t - (s.last[a] + cooldown)
  }

  /** A transmitter with an entry is granted exactly when its cooldown is over and the time since then,
      in 32 bits, is below 2^31: a peer that was silent for longer is refused again, for 2^31 ms out of
      every 2^32. */
  lemma CooldownRespected(s: System, cooldown: word, e: Event, t: int)
    requires Sound(s, cooldown) && Timed(s, e, t) && cooldown <= W
    requires e.Relevant() && InTable(s.peers, e.transmitter)
    ensures e.transmitter in s.last
    ensures Granted(s, e) <==>
              var overdue := Overdue(s, cooldown, e.transmitter, t); overdue >= 0 && Word(overdue) < W
  {
    var k :| 0 <= k < |s.peers| && s.peers[k].valid && s.peers[k].addr == e.transmitter;
    SearchFindsEntry(s.peers, e.transmitter, e.now, k, 0, 0);
    SignedOfDifference(t, s.last[e.transmitter] + cooldown);
    hide Shaped, Search, Signed, InTable;
    assert Granted(s, e) <==> Int32(Overdue(s, cooldown, e.transmitter, t)) >= 0;
  }

  /** So, up to 2^31 ms after its cooldown ended, a transmitter with an entry is granted iff it ended. */
  lemma GrantedWhenOver(s: System, cooldown: word, e: Event, t: int)
    requires Sound(s, cooldown) && Timed(s, e, t) && cooldown <= W
    requires e.Relevant() && InTable(s.peers, e.transmitter)
    requires e.transmitter in s.last && Overdue(s, cooldown, e.transmitter, t) < W
    ensures Granted(s, e) <==> s.last[e.transmitter] + cooldown <= t
  {
    CooldownRespected(s, cooldown, e, t);
  }

  // ---------- Runs ----------

  predicate Run(ss: seq<System>, cooldown: word, events: seq<Event>) {
    && |ss| == |events| + 1
    && (forall i | 0 <= i < |ss[0].peers| :: !ss[0].peers[i].valid)
    && ss[0].last == map[]
    && forall k | 0 <= k < |events| ::
         Timed(ss[k], events[k], ss[k + 1].time) && ss[k + 1] == Step(ss[k], cooldown, events[k], ss[k + 1].time)
  }

  /** From an all-invalid table, valid entries always form a prefix with distinct addresses. */
  lemma {:induction false} RunSound(ss: seq<System>, cooldown: word, events: seq<Event>, k: nat)
    requires Run(ss, cooldown, events) && k < |ss|
    ensures Sound(ss[k], cooldown) && |ss[k].peers| == |ss[0].peers|
  {
    if k > 0 {
      RunSound(ss, cooldown, events, k - 1);
      assert Timed(ss[k - 1], events[k - 1], ss[k].time);
      StepKeepsSound(ss[k - 1], cooldown, events[k - 1], ss[k].time);
    }
  }

  /** With live stamps the table always holds the most recently granted transmitters, or all of them
      while there are fewer than it has entries. */
  lemma {:induction false} RunMostRecent(ss: seq<System>, cooldown: word, events: seq<Event>, k: nat)
    requires Run(ss, cooldown, events) && k < |ss|
    requires forall j | 0 <= j < k :: Live(ss[j].peers, ss[j].last)
    ensures MostRecent(ss[k].peers, ss[k].last)
  {
    if k > 0 {
      RunMostRecent(ss, cooldown, events, k - 1);
      RunSound(ss, cooldown, events, k - 1);
      assert Timed(ss[k - 1], events[k - 1], ss[k].time);
      StepKeepsMostRecent(ss[k - 1], cooldown, events[k - 1], ss[k].time);
    }
  }

  /** Distinct transmitters were granted at distinct times. */
  predicate StrictTimes(last: Grants) {
    forall a, b | a in last && b in last && last[a] == last[b] :: a == b
  }

  /** When grant times are strict, membership is decided by rank: a granted transmitter is in the
      table iff fewer than `capacity` others were granted after it. */
  lemma RankDecides(ss: seq<System>, cooldown: word, events: seq<Event>, k: nat, a: Mac)
    requires Run(ss, cooldown, events) && k < |ss|
    requires forall j | 0 <= j < k :: Live(ss[j].peers, ss[j].last)
    requires StrictTimes(ss[k].last) && a in ss[k].last && ss[k].peers != []
    ensures InTable(ss[k].peers, a) <==> |Later(ss[k].last, a)| < |ss[k].peers|
  {
    RunSound(ss, cooldown, events, k);
    RunMostRecent(ss, cooldown, events, k);
    if InTable(ss[k].peers, a) {
      FewLater(ss[k].peers, ss[k].last, a);
    } else {
      ManyLater(ss[k].peers, ss[k].last, a);
    }
  }

  lemma FewLater(peers: seq<Peer>, last: Grants, a: Mac)
    requires Shaped(peers) && MostRecent(peers, last) && a in last && InTable(peers, a)
    ensures |Later(last, a)| < |peers|
  {
    var inside := Addresses(peers, |peers|);
    AddressCount(peers, |peers|);
    assert forall b | b in last && !InTable(peers, b) :: last[b] <= last[a];
    assert Later(last, a) <= inside - {a};
    SubsetSize(Later(last, a), inside - {a});
  }

  lemma ManyLater(peers: seq<Peer>, last: Grants, a: Mac)
    requires Shaped(peers) && MostRecent(peers, last) && StrictTimes(last) && a in last && !InTable(peers, a)
    requires forall i | 0 <= i < |peers| && peers[i].valid :: peers[i].addr in last
    ensures |Later(last, a)| >= |peers|
  {
    var inside := Addresses(peers, |peers|);
    AddressCount(peers, |peers|);
    assert inside <= Later(last, a);
    SubsetSize(inside, Later(last, a));
  }

  function Later(last: Grants, a: Mac): set<Mac>
    requires a in last
  {
    set b | b in last && last[a] < last[b]
  }

  /** Addresses of the valid entries among the first n. */
  function Addresses(peers: seq<Peer>, n: nat): set<Mac>
    requires n <= |peers|
  {
    set i | 0 <= i < n && peers[i].valid :: peers[i].addr
  }

  /** One more entry. */
  lemma AddressAdded(peers: seq<Peer>, n: nat)
    requires Shaped(peers) && n < |peers|
    ensures var before, after := Addresses(peers, n), Addresses(peers, n + 1);
            if peers[n].valid then peers[n].addr !in before && after == before + {peers[n].addr} else after == before
  {
    if peers[n].valid {
      forall i | 0 <= i < n && peers[i].valid ensures peers[i].addr != peers[n].addr {
      }
    }
  }

  lemma NoAddresses(peers: seq<Peer>)
    ensures Addresses(peers, 0) == {}
  {
  }

  lemma {:induction false} AddressCount(peers: seq<Peer>, n: nat)
    requires Shaped(peers) && n <= |peers|
    ensures |Addresses(peers, n)| <= n
    ensures (forall i | 0 <= i < n :: peers[i].valid) ==> |Addresses(peers, n)| == n
  {
    hide Shaped, Addresses;
    if n == 0 {
      NoAddresses(peers);
    } else {
      AddressCount(peers, n - 1);
      AddressAdded(peers, n - 1);
    }
  }

  lemma {:induction false} SubsetSize<T>(a: set<T>, b: set<T>)
    requires a <= b
    ensures |a| <= |b|
  {
    if a != {} {
      var x :| x in a;
      SubsetSize(a - {x}, b - {x});
    }
  }

  lemma {:induction false} LastGrant(ss: seq<System>, cooldown: word, events: seq<Event>, j: nat, k: nat)
    requires Run(ss, cooldown, events) && j < k < |ss| && Granted(ss[j], events[j])
    ensures events[j].transmitter in ss[k].last && ss[j + 1].time <= ss[k].last[events[j].transmitter]
    decreases k
  {
    assert Timed(ss[k - 1], events[k - 1], ss[k].time);
    assert ss[k] == Step(ss[k - 1], cooldown, events[k - 1], ss[k].time);
    RunSound(ss, cooldown, events, k - 1);
    if j < k - 1 {
      LastGrant(ss, cooldown, events, j, k - 1);
    }
  }

  /** Two grants to one transmitter are a cooldown apart, unless the table has since been filled by
      that many other transmitters granted no earlier than the first of the two. */
  lemma GrantsApartOrEvicted(ss: seq<System>, cooldown: word, events: seq<Event>, j: nat, k: nat)
    requires Run(ss, cooldown, events) && j < k < |events| && cooldown <= W
    requires events[j].transmitter == events[k].transmitter
    requires Granted(ss[j], events[j]) && Granted(ss[k], events[k])
    requires forall m | 0 <= m < k :: Live(ss[m].peers, ss[m].last)
    ensures || ss[j + 1].time + cooldown <= ss[k + 1].time
            || (&& |Addresses(ss[k].peers, |ss[k].peers|)| == |ss[0].peers|
                && forall b | b in Addresses(ss[k].peers, |ss[k].peers|) ::
                     b != events[k].transmitter && b in ss[k].last && ss[j + 1].time <= ss[k].last[b])
  {
    RunSound(ss, cooldown, events, k);
    LastGrant(ss, cooldown, events, j, k);
    assert Timed(ss[k], events[k], ss[k + 1].time);
    var peers, a := ss[k].peers, events[k].transmitter;
    if InTable(peers, a) {
      CooldownRespected(ss[k], cooldown, events[k], ss[k + 1].time);
    } else {
      RunMostRecent(ss, cooldown, events, k);
      assert Full(peers);
      AddressCount(peers, |peers|);
    }
  }

  // ---------- Few transmitters ----------

  /** Everyone ever granted still has an entry. */
  predicate AllPresent(s: System) {
    forall a | a in s.last :: InTable(s.peers, a)
  }

  lemma {:induction false} RunAllPresent(ss: seq<System>, cooldown: word, events: seq<Event>, k: nat, few: set<Mac>)
    requires Run(ss, cooldown, events) && k < |ss| && |few| <= |ss[0].peers|
    requires forall m | 0 <= m < |events| :: events[m].transmitter in few
    ensures AllPresent(ss[k]) && forall a | a in ss[k].last :: a in few
  {
    if k > 0 {
      RunAllPresent(ss, cooldown, events, k - 1, few);
      RunSound(ss, cooldown, events, k - 1);
      var s, e, t := ss[k - 1], events[k - 1], ss[k].time;
      assert Timed(s, e, t) && ss[k] == Step(s, cooldown, e, t) && e.transmitter in few;
      StepKeepsAllPresent(s, cooldown, e, t, few);
    }
  }

  lemma NoFullMiss(peers: seq<Peer>, a: Mac, few: set<Mac>)
    requires Shaped(peers) && Full(peers) && |few| <= |peers|
    requires a in few && forall i | 0 <= i < |peers| :: peers[i].addr in few
    ensures InTable(peers, a)
  {
    var inside := Addresses(peers, |peers|);
    AddressCount(peers, |peers|);
    if a !in inside {
      SubsetSize(inside, few - {a});
    }
  }

  lemma StepKeepsAllPresent(s: System, cooldown: word, e: Event, t: int, few: set<Mac>)
    requires Sound(s, cooldown) && Timed(s, e, t) && AllPresent(s)
    requires |few| <= |s.peers| && e.transmitter in few && forall a | a in s.last :: a in few
    ensures AllPresent(Step(s, cooldown, e, t))
  {
    if Granted(s, e) {
      DecideMeaning(s.peers, cooldown, s.last, e);
      if Full(s.peers) {
        NoFullMiss(s.peers, e.transmitter, few);
      }
      var slot, next := Decide(s.peers, e).slot, Step(s, cooldown, e, t);
      assert next.peers[slot].addr == e.transmitter && next.peers[slot].valid;
      forall a | a in next.last && a != e.transmitter ensures InTable(next.peers, a) {
        var i :| 0 <= i < |s.peers| && s.peers[i].valid && s.peers[i].addr == a;
        assert next.peers[i] == s.peers[i];
      }
    }
  }

  /** In every run with no more distinct transmitters than entries, two grants to the same
      transmitter are at least a cooldown apart, however long the run and whatever the stamps. */
  lemma GrantsApart(ss: seq<System>, cooldown: word, events: seq<Event>, j: nat, k: nat, few: set<Mac>)
    requires Run(ss, cooldown, events) && j < k < |events| && cooldown <= W
    requires |few| <= |ss[0].peers| && forall m | 0 <= m < |events| :: events[m].transmitter in few
    requires events[j].transmitter == events[k].transmitter
    requires Granted(ss[j], events[j]) && Granted(ss[k], events[k])
    ensures ss[j + 1].time + cooldown <= ss[k + 1].time
  {
    RunSound(ss, cooldown, events, k);
    LastGrant(ss, cooldown, events, j, k);
    RunAllPresent(ss, cooldown, events, k, few);
    assert Timed(ss[k], events[k], ss[k + 1].time);
    CooldownRespected(ss[k], cooldown, events[k], ss[k + 1].time);
  }
}

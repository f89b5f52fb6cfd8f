/** Switching the regulatory domain: start-up (`net_mgmt.c`) and the SET and GET requests
    (`wifi_mgmt.c`), over every outcome of the calls into the Wi-Fi library. */
module RegDomain {
  import opened Bytes
  import BcfTable

  type Country = c: seq<byte> | |c| == 2 witness [0x30, 0x30]

  /** "00", the country code of no region. */
  const WORLD: Country := [0x30, 0x30]

  datatype Status =
    | Success | InvalidArgument | Unavailable | ChannelListNotSet | ChannelInvalid | NoMem
    | TimedOut | NotFound | NotRunning | Error | ShutdownBlocked

  /** 0 and the negative errno values the driver returns. */
  datatype Ret = Zero | EINVAL | ENOENT | EAGAIN | ECHRNG | ENOMEM | ETIMEDOUT | ENODEV | EIO

  function ErrnoOf(s: Status): Ret {
    match s
    case Success => Zero
    case InvalidArgument => EINVAL
    case Unavailable => EAGAIN
    case ChannelListNotSet | ChannelInvalid => ECHRNG
    case NoMem => ENOMEM
    case TimedOut => ETIMEDOUT
    case NotFound | NotRunning => ENODEV
    case Error | ShutdownBlocked => EIO
  }

  /** Which results give which error. */
  lemma ErrnoMeaning(s: Status)
    ensures ErrnoOf(s) == Zero <==> s == Success
    ensures ErrnoOf(s) == EINVAL <==> s == InvalidArgument
    ensures ErrnoOf(s) == EAGAIN <==> s == Unavailable
    ensures ErrnoOf(s) == ECHRNG <==> s in {ChannelListNotSet, ChannelInvalid}
    ensures ErrnoOf(s) == ENOMEM <==> s == NoMem
    ensures ErrnoOf(s) == ETIMEDOUT <==> s == TimedOut
    ensures ErrnoOf(s) == ENODEV <==> s in {NotFound, NotRunning}
    ensures ErrnoOf(s) == EIO <==> s in {Error, ShutdownBlocked}
    ensures ErrnoOf(s) != ENOENT
  {
  }

  datatype Channel = Channel(centreHz: nat, maxEirpDbm: int)
  datatype ChannelList = ChannelList(country: Country, channels: seq<Channel>)
  datatype ChanInfo = ChanInfo(centreMhz: nat, maxPower: int)

  datatype IfaceStatus = Disabled | Inactive

  /** What the build and the databases fix: the flat BCF region table, the regulatory database lookup,
      the build options and the room for channels in a GET request; `beyond` is the byte behind the
      table. */
  datatype Env = Env(bcf: seq<byte>, beyond: byte, regdb: Country -> Option<ChannelList>,
                     powersave: bool, apMode: bool, maxChannels: nat)
  {
    /** A lookup returns a list of the requested region. */
    ghost predicate Ok() {
      forall c: Country :: regdb(c).Some? ==> regdb(c).value.country == c
    }

    /** The driver finds the region in the table, or in a half entry and what lies behind it. */
    predicate InBcf(c: Country) {
      BcfTable.InTable(bcf, c) || (BcfTable.ReadsPast(bcf, c) && c[1] == beyond)
    }

    predicate Supported(c: Country) {
      InBcf(c) && regdb(c).Some?
    }
  }

  /** Results of the library calls one start makes. */
  datatype Outcomes = Outcomes(boot: Status, powerSave: Status, macAddr: Status, rxCb: Status, vifCb: Status,
                               apRxCb: Status, apVifCb: Status, version: Status)

  /** The calls a start makes, in order, and the first failure among them. */
  function Steps(env: Env, o: Outcomes): seq<Status> {
    [o.boot] + (if env.powersave then [] else [o.powerSave]) + [o.macAddr, o.rxCb, o.vifCb]
    + (if env.apMode then [o.apRxCb, o.apVifCb] else []) + [o.version]
  }

  function FirstFailure(steps: seq<Status>): Ret {
    if steps == [] then Zero else if steps[0] != Success then ErrnoOf(steps[0]) else FirstFailure(steps[1..])
  }

  lemma {:induction false} FirstFailureConcat(a: seq<Status>, b: seq<Status>)
    ensures FirstFailure(a + b) == if FirstFailure(a).Zero? then FirstFailure(b) else FirstFailure(a)
  {
    if a == [] {
      assert a + b == b;
    } else {
      FirstFailureConcat(a[1..], b);
      assert (a + b)[1..] == a[1..] + b;
    }
  }

  function Or(a: Ret, b: Ret): Ret {
    if a.Zero? then b else a
  }

  lemma StepsInOrder(env: Env, o: Outcomes)
    ensures FirstFailure(Steps(env, o))
         == Or(ErrnoOf(o.boot),
               Or(if env.powersave then Zero else ErrnoOf(o.powerSave),
                  Or(ErrnoOf(o.macAddr), Or(ErrnoOf(o.rxCb), Or(ErrnoOf(o.vifCb),
                     Or(if env.apMode then Or(ErrnoOf(o.apRxCb), ErrnoOf(o.apVifCb)) else Zero,
                        ErrnoOf(o.version)))))))
  {
    var power := if env.powersave then [] else [o.powerSave];
    var ap := if env.apMode then [o.apRxCb, o.apVifCb] else [];
    var station := [o.macAddr, o.rxCb, o.vifCb];
    assert station == [o.macAddr] + ([o.rxCb] + [o.vifCb]);
    FirstFailureConcat([o.rxCb], [o.vifCb]);
    FirstFailureConcat([o.macAddr], [o.rxCb] + [o.vifCb]);
    assert [o.apRxCb, o.apVifCb] == [o.apRxCb] + [o.apVifCb];
    FirstFailureConcat([o.apRxCb], [o.apVifCb]);
    FirstFailureConcat([o.boot], power);
    FirstFailureConcat([o.boot] + power, station);
    FirstFailureConcat([o.boot] + power + station, ap);
    FirstFailureConcat([o.boot] + power + station + ap, [o.version]);
  }

  /** The fields of the driver and of its interface that region switching touches, and whether a scan
      runs. */
  datatype State = State(channelList: Option<ChannelList>, initialized: bool,
                         sta: IfaceStatus, ap: IfaceStatus, up: bool,
                         dormant: bool, carrier: bool, scanning: bool)

  const BOOT_STATE := State(None, false, Disabled, Disabled, false, false, false, false)

  function AfterStart(env: Env, s: State, c: Country, o: Outcomes): State
  {
    if !env.InBcf(c) then s.(channelList := None)
    else if env.regdb(c).None? then s
    else
      var linked := o.boot.Success? && (env.powersave || o.powerSave.Success?) && o.macAddr.Success?;
      State(env.regdb(c), s.initialized || o.boot.Success?,
            if FirstFailure(Steps(env, o)).Zero? then Inactive else s.sta,
            s.ap, s.up || linked, s.dormant || linked,
            s.carrier || FirstFailure(Steps(env, o)).Zero?, s.scanning)
  }

  function StartRet(env: Env, c: Country, o: Outcomes): Ret
  {
    if !env.InBcf(c) then EINVAL
    else if env.regdb(c).None? then ENOENT
    else FirstFailure(Steps(env, o))
  }

  /** What a start leaves, field by field, and what it returns: -EINVAL without the region in the BCF, -ENOENT
      without its channels, else the first error of its calls. */
  lemma StartFields(env: Env, s: State, c: Country, o: Outcomes)
    ensures var t, ret := AfterStart(env, s, c, o), StartRet(env, c, o);
            var linked := env.Supported(c) && o.boot.Success? && (env.powersave || o.powerSave.Success?)
                          && o.macAddr.Success?;
            && (!env.InBcf(c) ==> ret == EINVAL && t.channelList.None?)
            && (env.InBcf(c) && env.regdb(c).None? ==> ret == ENOENT && t.channelList == s.channelList)
            && (env.Supported(c) ==> t.channelList == env.regdb(c))
            && (t.initialized <==> s.initialized || (env.Supported(c) && o.boot.Success?))
            && t.sta == (if ret == Zero then Inactive else s.sta)
            && (t.carrier <==> s.carrier || ret == Zero)
            && (t.up <==> s.up || linked) && (t.dormant <==> s.dormant || linked)
            && t.ap == s.ap && t.scanning == s.scanning
  {
  }

  /** The interface goes down when no channel list is left. */
  function Settled(s: State): State {
    s.(up := s.up && s.channelList.Some?)
  }

  function AfterSet(env: Env, s: State, c: Country, shutdown: Status, o: Outcomes): State
  {
    if !shutdown.Success? then s.(scanning := false)
    else
      var cleared := s.(channelList := None, scanning := false);
      Settled(if c != WORLD then AfterStart(env, cleared, c, o)
              else if s.initialized then cleared.(initialized := false, sta := Disabled,
                                                  ap := if env.apMode then Disabled else s.ap)
              else cleared)
  }

  function Reported(s: State): Country {
    if s.channelList.None? then WORLD else s.channelList.value.country
  }

  class Driver {
    const env: Env
    var channelList: Option<ChannelList>
    var initialized: bool
    var sta: IfaceStatus
    var ap: IfaceStatus
    var up: bool
    var dormant: bool
    var carrier: bool
    var scanning: bool

    ghost function View(): State
      reads this
    {
      State(channelList, initialized, sta, ap, up, dormant, carrier, scanning)
    }

    /** Static storage: all fields zero. */
    constructor (env: Env)
      ensures this.env == env && View() == BOOT_STATE
    {
      this.env := env;
      channelList, initialized, sta, ap, up := None, false, Disabled, Disabled, false;
      dormant, carrier, scanning := false, false, false;
    }

    /** `morsemicro_wlan_start`. */
    method WlanStart(c: Country, o: Outcomes) returns (ret: Ret)
      requires env.Ok()
      modifies this
      ensures View() == AfterStart(env, old(View()), c, o)
      ensures ret == StartRet(env, c, o)
    {
      StepsInOrder(env, o);
      var dne, past := BcfTable.BcfRegDne(env.bcf, c, env.beyond);
      if dne != 0 {
        channelList := None;
        return EINVAL;
      }
      var found := env.regdb(c);
      if found.None? {
        return ENOENT;
      }
      channelList := found;
      if o.boot != Success {
        return ErrnoOf(o.boot);
      }
      initialized := true;
      if !env.powersave {
        if o.powerSave != Success {
          return ErrnoOf(o.powerSave);
        }
      }
      if o.macAddr != Success {
        return ErrnoOf(o.macAddr);
      }
      dormant := true;
      up := false;
      up := true;
      if o.rxCb != Success {
        return ErrnoOf(o.rxCb);
      }
      if o.vifCb != Success {
        return ErrnoOf(o.vifCb);
      }
      if env.apMode {
        if o.apRxCb != Success {
          return ErrnoOf(o.apRxCb);
        }
        if o.apVifCb != Success {
          return ErrnoOf(o.apVifCb);
        }
      }
      if o.version != Success {
        return ErrnoOf(o.version);
      }
      carrier := true;
      sta := Inactive;
      return Zero;
    }

    /** `morsemicro_iface_init`: start-up, whose result is only logged. */
    method IfaceInit(region: Country, o: Outcomes)
      requires env.Ok()
      modifies this
      ensures View() == AfterStart(env, old(View()).(sta := Disabled, initialized := false), region, o)
    {
      sta, initialized := Disabled, false;
      var ret := WlanStart(region, o);
    }

    /** `morsemicro_mgmt_reg_domain`, SET. */
    method SetRegDomain(c: Country, shutdown: Status, o: Outcomes) returns (ret: Ret)
      requires env.Ok()
      modifies this
      ensures View() == AfterSet(env, old(View()), c, shutdown, o)
      ensures ret == if !shutdown.Success? then ErrnoOf(shutdown)
                     else if c == WORLD then Zero
                     else StartRet(env, c, o)
      ensures !scanning
      ensures c == WORLD && shutdown.Success? ==>
                && channelList.None? && !initialized && !up
                && (old(initialized) ==> sta == Disabled && (env.apMode ==> ap == Disabled))
                && (!old(initialized) ==> sta == old(sta))
                && (!env.apMode || !old(initialized) ==> ap == old(ap))
      ensures !shutdown.Success? ==>
                && channelList == old(channelList) && initialized == old(initialized)
                && sta == old(sta) && ap == old(ap) && up == old(up)
    {
      scanning := false;
      if shutdown != Success {
        return ErrnoOf(shutdown);
      }
      channelList := None;
      if c[0] == 0x30 && c[1] == 0x30 {
        assert c == WORLD;
        if initialized {
          initialized := false;
          sta := Disabled;
          if env.apMode {
            ap := Disabled;
          }
        }
        ret := Zero;
      } else {
        ret := WlanStart(c, o);
      }
      if channelList == None && up {
        up := false;
      }
    }

    /** `morsemicro_mgmt_reg_domain`, GET; `room` is whether the caller passed a channel array. */
    method GetRegDomain(room: bool) returns (c: Country, info: seq<ChanInfo>)
      ensures c == Reported(View())
      ensures channelList.None? || !room ==> info == []
      ensures channelList.Some? && room ==>
                var channels := channelList.value.channels;
                && |info| == (if |channels| < env.maxChannels then |channels| else env.maxChannels)
                && forall i | 0 <= i < |info| ::
                     info[i] == ChanInfo(channels[i].centreHz / 1000000, channels[i].maxEirpDbm)
    {
      info := [];
      if channelList == None {
        return WORLD, [];
      }
      c := channelList.value.country;
      if !room {
        return;
      }
      var channels := channelList.value.channels;
      var n := if |channels| < env.maxChannels then |channels| else env.maxChannels;
      for i := 0 to n
        invariant |info| == i
        invariant forall k | 0 <= k < i :: info[k] == ChanInfo(channels[k].centreHz / 1000000, channels[k].maxEirpDbm)
      {
        info := info + [ChanInfo(channels[i].centreHz / 1000000, channels[i].maxEirpDbm)];
      }
    }
  }

  // ---------- Runs ----------

  datatype Request = Set(country: Country, shutdown: Status, outcomes: Outcomes)

  /** The state after start-up with `region` and then the SET requests. */
  function After(env: Env, region: Country, boot: Outcomes, requests: seq<Request>): State
  {
    if requests == [] then AfterStart(env, BOOT_STATE, region, boot)
    else
      var n := |requests| - 1;
      AfterSet(env, After(env, region, boot, requests[..n]),
               requests[n].country, requests[n].shutdown, requests[n].outcomes)
  }

  /** The region of the last attempt: start-up, or a SET whose shutdown succeeded. */
  function LastAttempt(region: Country, requests: seq<Request>): Country {
    if requests == [] then region
    else
      var n := |requests| - 1;
      if requests[n].shutdown.Success? then requests[n].country else LastAttempt(region, requests[..n])
  }

  /** What one start and one SET do to the reported region. */
  lemma StartReports(env: Env, s: State, c: Country, o: Outcomes)
    requires env.Ok() && s.channelList.None?
    ensures var t := AfterStart(env, s, c, o);
            && Reported(t) == (if env.Supported(c) then c else WORLD)
            && (t.channelList.Some? || t.up == s.up)
  {
    hide Steps, FirstFailure;
  }

  lemma SetReports(env: Env, s: State, c: Country, shutdown: Status, o: Outcomes)
    requires env.Ok() && (s.up ==> s.channelList.Some?)
    ensures var t := AfterSet(env, s, c, shutdown, o);
            && Reported(t) == (if !shutdown.Success? then Reported(s) else if env.Supported(c) then c else WORLD)
            && (t.up ==> t.channelList.Some?)
  {
    hide AfterStart;
    StartReports(env, s.(channelList := None, scanning := false), c, o);
  }

  /** Over every run GET reports the region of the last attempt if both databases know it, else "00",
      whatever the later start-up steps returned; and the interface is up only with a channel list. */
  lemma {:induction false} GetReportsLastAttempt(env: Env, region: Country, boot: Outcomes, requests: seq<Request>)
    requires env.Ok()
    ensures var s := After(env, region, boot, requests);
            var last := LastAttempt(region, requests);
            && Reported(s) == (if env.Supported(last) then last else WORLD)
            && (s.up ==> s.channelList.Some?)
  {
    hide AfterStart, AfterSet, Reported;
    if requests == [] {
      StartReports(env, BOOT_STATE, region, boot);
    } else {
      var n := |requests| - 1;
      GetReportsLastAttempt(env, region, boot, requests[..n]);
      SetReports(env, After(env, region, boot, requests[..n]),
                 requests[n].country, requests[n].shutdown, requests[n].outcomes);
    }
  }

  /** Only an initialised library has an interface that is not disabled. */
  predicate Consistent(s: State) {
    (s.sta.Inactive? ==> s.initialized) && s.ap.Disabled?
  }

  /** Over every run: a start-up or SET leaves the interface disabled unless the library runs, and after a SET
      of "00" whose shutdown succeeded, followed only by SETs whose shutdown failed, the library does not
      run and the interfaces are disabled and down. */
  lemma {:induction false} WorldDisables(env: Env, region: Country, boot: Outcomes, requests: seq<Request>, k: nat)
    requires k <= |requests|
    ensures Consistent(After(env, region, boot, requests[..k]))
    ensures (exists i :: 0 <= i < k && LastIsWorld(requests, i, k)) ==>
              var s := After(env, region, boot, requests[..k]);
              !s.initialized && s.sta.Disabled? && s.ap.Disabled? && !s.up && s.channelList.None?
    decreases k
  {
    hide AfterStart, AfterSet;
    if k == 0 {
      StartConsistent(env, BOOT_STATE, region, boot);
    } else {
      var before := After(env, region, boot, requests[..k - 1]);
      WorldDisables(env, region, boot, requests, k - 1);
      assert requests[..k][..k - 1] == requests[..k - 1];
      SetWorld(env, before, requests[k - 1]);
      if i :| 0 <= i < k - 1 && LastIsWorld(requests, i, k) {
        assert LastIsWorld(requests, i, k - 1);
      }
    }
  }

  lemma StartConsistent(env: Env, s: State, region: Country, o: Outcomes)
    requires Consistent(s)
    ensures Consistent(AfterStart(env, s, region, o))
  {
    StepsSucceed(env, o);
    hide Steps, FirstFailure;
  }

  /** One SET: "00" disables when its shutdown succeeds, and no SET does anything when it fails. */
  lemma SetWorld(env: Env, s: State, r: Request)
    requires Consistent(s)
    ensures var t := AfterSet(env, s, r.country, r.shutdown, r.outcomes);
            && Consistent(t)
            && (!r.shutdown.Success? ==> t == s.(scanning := false))
            && (r.shutdown.Success? && r.country == WORLD ==>
                  !t.initialized && t.sta.Disabled? && t.ap.Disabled? && !t.up && t.channelList.None?)
  {
    hide AfterStart;
    StartConsistent(env, s.(channelList := None, scanning := false), r.country, r.outcomes);
  }

  /** Request i is the last before k whose shutdown succeeded, and it is for "00". */
  predicate LastIsWorld(requests: seq<Request>, i: int, k: int)
    requires 0 <= i < k <= |requests|
  {
    && requests[i].shutdown.Success? && requests[i].country == WORLD
    && forall j | i < j < k :: !requests[j].shutdown.Success?
  }

  lemma StepsSucceed(env: Env, o: Outcomes)
    ensures FirstFailure(Steps(env, o)).Zero? ==> o.boot.Success?
  {
    StepsInOrder(env, o);
  }

  /** A SET that ran to the end reports success exactly when its region is in force, for every region
      but "00". */
  lemma SetSuccess(env: Env, s: State, c: Country, shutdown: Status, o: Outcomes)
    requires env.Ok() && c != WORLD && shutdown.Success?
    ensures StartRet(env, c, o).Zero? ==>
              var t := AfterSet(env, s, c, shutdown, o);
              Reported(t) == c && t.initialized && t.sta.Inactive? && t.up && t.dormant && t.carrier && !t.scanning
    ensures StartRet(env, c, o).Zero?
       <==> env.Supported(c) && forall i | 0 <= i < |Steps(env, o)| :: Steps(env, o)[i].Success?
  {
    FirstFailureMeaning(Steps(env, o));
    StepsInOrder(env, o);
  }

  lemma {:induction false} FirstFailureMeaning(steps: seq<Status>)
    ensures FirstFailure(steps).Zero? <==> forall i | 0 <= i < |steps| :: steps[i].Success?
  {
    if steps != [] {
      FirstFailureMeaning(steps[1..]);
      assert steps == [steps[0]] + steps[1..];
    }
  }
}

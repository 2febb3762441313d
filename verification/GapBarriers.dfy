/**
  The generic access profile starts and stops all other profiles: it waits until each one has
  answered before it takes the next step.
 */
module GapBarriers {

  /** The profiles are numbered; `PROFILE_ID_BT_AM` is the audio manager. */
  const PROFILE_ID_BT_AM: nat := 2

  /** `ProfileConfig` of the profile with the same index */
  datatype Profile = Profile(isEnabled: bool, startStatus: bool, stopStatus: bool)

  datatype Post = Start(profile: nat) | Stop(profile: nat) | BtEnabled | AmDisableReq | AmDisableDone

  function Enabled(ps: seq<Profile>): set<nat> {
    set i: nat | i < |ps| && ps[i].isEnabled
  }

  function Started(ps: seq<Profile>): set<nat> {
    set i: nat | i < |ps| && ps[i].isEnabled && ps[i].startStatus
  }

  function Stopped(ps: seq<Profile>): set<nat> {
    set i: nat | i < |ps| && ps[i].isEnabled && ps[i].stopStatus
  }

  // ------------------------------------------------------------------------------------------
  // A barrier

  /** What a profile answers, and whether it was successful. */
  datatype Reply = Reply(profile: nat, status: bool)

  /** Who has succeeded, after one more answer; only enabled profiles are recorded. */
  function Record(enabled: set<nat>, done: set<nat>, r: Reply): set<nat> {
    if r.profile !in enabled then done else if r.status then done + {r.profile} else done - {r.profile}
  }

  function Recorded(enabled: set<nat>, done: set<nat>, rs: seq<Reply>): set<nat> {
    if rs == [] then done
    else Record(enabled, Recorded(enabled, done, rs[..|rs| - 1]), rs[|rs| - 1])
  }

  /** How often the barrier opens: at every answer after which all that are needed have succeeded. */
  function Openings(enabled: set<nat>, needed: set<nat>, done: set<nat>, rs: seq<Reply>): nat {
    if rs == [] then 0
    else Openings(enabled, needed, done, rs[..|rs| - 1])
         + if needed <= Recorded(enabled, done, rs) then 1 else 0
  }

  function Profiles(rs: seq<Reply>): set<nat> {
    set r | r in rs :: r.profile
  }

  /** Every profile answers at most once. */
  ghost predicate Once(rs: seq<Reply>) {
    forall i, j :: 0 <= i < j < |rs| ==> rs[i].profile != rs[j].profile
  }

  lemma {:induction false} Unanswered(enabled: set<nat>, done: set<nat>, a: seq<Reply>, b: seq<Reply>, p: nat)
    requires p !in Profiles(b)
    ensures p in Recorded(enabled, done, a + b) <==> p in Recorded(enabled, done, a)
    decreases |b|
  {
    if b == [] {
      assert a + b == a;
    } else {
      var init, r := b[..|b| - 1], b[|b| - 1];
      assert (a + b)[..|a + b| - 1] == a + init && b == init + [r];
      ProfilesNext(init, r);
      Unanswered(enabled, done, a, init, p);
    }
  }

  /** A profile's last answer is what counts. */
  lemma LastAnswerCounts(enabled: set<nat>, done: set<nat>, a: seq<Reply>, r: Reply, b: seq<Reply>)
    requires r.profile in enabled && r.profile !in Profiles(b)
    ensures r.profile in Recorded(enabled, done, a + [r] + b) <==> r.status
  {
    Unanswered(enabled, done, a + [r], b, r.profile);
    assert (a + [r])[..|a|] == a;
  }

  lemma {:induction false} SuccessesAreRecorded(enabled: set<nat>, done: set<nat>, rs: seq<Reply>)
    requires forall r :: r in rs ==> r.status && r.profile in enabled
    ensures Recorded(enabled, done, rs) == done + Profiles(rs)
  {
    if rs != [] {
      var init, r := rs[..|rs| - 1], rs[|rs| - 1];
      assert rs == init + [r];
      SuccessesAreRecorded(enabled, done, init);
      ProfilesNext(init, r);
    }
  }

  lemma ProfilesNext(rs: seq<Reply>, r: Reply)
    ensures Profiles(rs + [r]) == Profiles(rs) + {r.profile}
  {
    assert forall q :: q in rs + [r] <==> q in rs || q == r;
    assert r in rs + [r];
  }

  lemma LastIsNew(rs: seq<Reply>)
    requires Once(rs) && rs != []
    ensures var init, r := rs[..|rs| - 1], rs[|rs| - 1];
            && r in rs && (forall q :: q in init ==> q in rs)
            && Once(init) && r.profile !in Profiles(init) && Profiles(rs) == Profiles(init) + {r.profile}
  {
    var init, r := rs[..|rs| - 1], rs[|rs| - 1];
    assert rs == init + [r];
    ProfilesNext(init, r);
  }

  /**
    If nobody has succeeded yet and profiles that are needed answer once and successfully, the
    barrier opens once, at the last of them, if all have answered, and else never.
   */
  lemma {:induction false} OpensOnce(enabled: set<nat>, needed: set<nat>, rs: seq<Reply>)
    requires Once(rs) && needed <= enabled
    requires forall r :: r in rs ==> r.status && r.profile in needed
    ensures Openings(enabled, needed, {}, rs) == if rs != [] && Profiles(rs) == needed then 1 else 0
  {
    if rs != [] {
      var init := rs[..|rs| - 1];
      LastIsNew(rs);
      assert Openings(enabled, needed, {}, rs)
          == Openings(enabled, needed, {}, init) + if needed <= Recorded(enabled, {}, rs) then 1 else 0;
      hide Openings, Recorded, Once, Profiles;
      OpensOnce(enabled, needed, init);
      SuccessesAreRecorded(enabled, {}, rs);
    }
  }

  /** So before the last answer it has not opened yet. */
  lemma OpensLast(enabled: set<nat>, needed: set<nat>, rs: seq<Reply>)
    requires Once(rs) && needed <= enabled && rs != []
    requires forall r :: r in rs ==> r.status && r.profile in needed
    ensures Openings(enabled, needed, {}, rs[..|rs| - 1]) == 0
  {
    LastIsNew(rs);
    hide Openings, Once, Profiles;
    OpensOnce(enabled, needed, rs[..|rs| - 1]);
  }

  // ------------------------------------------------------------------------------------------
  // Starting and stopping

  /** Everyone but the audio manager has to stop before it is disabled. */
  function ToStop(ps: seq<Profile>): set<nat> {
    Enabled(ps) - {PROFILE_ID_BT_AM}
  }

  /** The profiles that are told to stop. */
  function Told(ps: seq<Profile>): set<nat> {
    Started(ps) - {PROFILE_ID_BT_AM}
  }

  /**
    When the profiles that are told to stop answer once and successfully, in any order, the audio
    manager is disabled once, at the last answer.  If one of them is missing, or one of the others
    has not been told to stop because it never started, it is not disabled at all.
   */
  lemma StopCycle(ps: seq<Profile>, rs: seq<Reply>)
    requires Once(rs) && forall r :: r in rs ==> r.status && r.profile in Told(ps)
    ensures Told(ps) <= ToStop(ps)
    ensures var n := Openings(Enabled(ps), ToStop(ps), {}, rs);
            && n == (if rs != [] && Profiles(rs) == ToStop(ps) then 1 else 0)
            && (rs != [] ==> Openings(Enabled(ps), ToStop(ps), {}, rs[..|rs| - 1]) == 0)
            && (Told(ps) != ToStop(ps) ==> n == 0)
  {
    assert Told(ps) <= ToStop(ps) <= Enabled(ps) && Profiles(rs) <= Told(ps);
    hide Enabled, ToStop, Told, Openings, Once, Profiles;
    OpensOnce(Enabled(ps), ToStop(ps), rs);
    if rs != [] {
      OpensLast(Enabled(ps), ToStop(ps), rs);
    }
  }

  /**
    When enabled profiles answer once and successfully after all have been told to start, in any
    order, Bluetooth is enabled once, at the last answer, if all have answered, and else never.
   */
  lemma StartCycle(ps: seq<Profile>, rs: seq<Reply>)
    requires Once(rs) && forall r :: r in rs ==> r.status && r.profile in Enabled(ps)
    ensures Openings(Enabled(ps), Enabled(ps), {}, rs) == if rs != [] && Profiles(rs) == Enabled(ps) then 1 else 0
    ensures rs != [] ==> Openings(Enabled(ps), Enabled(ps), {}, rs[..|rs| - 1]) == 0
  {
    hide Enabled, Openings, Once, Profiles;
    OpensOnce(Enabled(ps), Enabled(ps), rs);
    if rs != [] {
      OpensLast(Enabled(ps), Enabled(ps), rs);
    }
  }

  /** The profiles after a start has been ordered: none has started yet. */
  lemma StartsCleared(before: seq<Profile>, after: seq<Profile>)
    requires |before| == |after|
    requires forall i :: 0 <= i < |before| ==>
               after[i] == if before[i].isEnabled then before[i].(startStatus := false) else before[i]
    ensures Enabled(after) == Enabled(before) && Stopped(after) == Stopped(before) && Started(after) == {}
  {}

  /** The profiles after a stop has been ordered: none has stopped yet. */
  lemma StopsCleared(before: seq<Profile>, after: seq<Profile>)
    requires |before| == |after|
    requires forall i :: 0 <= i < |before| ==>
               after[i] == if before[i].isEnabled then before[i].(stopStatus := false) else before[i]
    ensures Enabled(after) == Enabled(before) && Started(after) == Started(before) && Stopped(after) == {}
  {}

  lemma WhoIs(ps: seq<Profile>, p: nat)
    requires p < |ps|
    ensures p in Enabled(ps) <==> ps[p].isEnabled
    ensures p in Told(ps) <==> ps[p].isEnabled && ps[p].startStatus && p != PROFILE_ID_BT_AM
  {}

  /** One order for each profile of the set, in the order of their numbers. */
  function Orders(stop: bool, who: set<nat>, n: nat): seq<Post> {
    if n == 0 then []
    else Orders(stop, who, n - 1) + if n - 1 in who then [if stop then Stop(n - 1) else Start(n - 1)] else []
  }

  /** The next step after the stop barrier, with or without an audio manager. */
  function AmStep(ps: seq<Profile>): Post {
    if PROFILE_ID_BT_AM in Enabled(ps) then AmDisableReq else AmDisableDone
  }

  function Times(n: nat, p: Post): seq<Post> {
    if n == 0 then [] else Times(n - 1, p) + [p]
  }

  /** One order for each profile of the set below `n`, in ascending order, and nothing else. */
  ghost predicate OneForEach(stop: bool, who: set<nat>, n: nat, os: seq<Post>) {
    && (forall i :: 0 <= i < |os| ==>
          (if stop then os[i].Stop? else os[i].Start?) && os[i].profile in who && os[i].profile < n)
    && (forall i, j :: 0 <= i < j < |os| ==> os[i].profile < os[j].profile)
    && (forall p: nat :: p in who && p < n ==> exists i :: 0 <= i < |os| && os[i].profile == p)
  }

  lemma {:induction false} OrdersAre(stop: bool, who: set<nat>, n: nat)
    ensures OneForEach(stop, who, n, Orders(stop, who, n))
  {
    if n > 0 {
      OrdersAre(stop, who, n - 1);
      hide Orders;
      OneMoreOrder(stop, who, n, Orders(stop, who, n - 1));
    }
  }

  lemma OneMoreOrder(stop: bool, who: set<nat>, n: nat, os: seq<Post>)
    requires n > 0 && OneForEach(stop, who, n - 1, os)
    ensures OneForEach(stop, who, n, os + if n - 1 in who then [if stop then Stop(n - 1) else Start(n - 1)] else [])
  {
    var more := if n - 1 in who then [if stop then Stop(n - 1) else Start(n - 1)] else [];
    var all := os + more;
    forall p: nat | p in who && p < n ensures exists i :: 0 <= i < |all| && all[i].profile == p {
      if p == n - 1 {
        assert all[|os|].profile == p;
      } else {
        var i :| 0 <= i < |os| && os[i].profile == p;
        assert all[i].profile == p;
      }
    }
  }

  /** The audio manager is the third profile: if it is enabled it is asked to disable itself. */
  lemma AmStepIs(ps: seq<Profile>)
    ensures AmStep(ps) == AmDisableReq <==> 2 < |ps| && ps[2].isEnabled
    ensures AmStep(ps) != AmDisableReq ==> AmStep(ps) == AmDisableDone
  {}

  /** Who is enabled, has started, has stopped, has to stop, and is told to. */
  lemma WhoIsIn(ps: seq<Profile>, p: nat)
    ensures p in Enabled(ps) <==> p < |ps| && ps[p].isEnabled
    ensures p in Started(ps) <==> p < |ps| && ps[p].isEnabled && ps[p].startStatus
    ensures p in Stopped(ps) <==> p < |ps| && ps[p].isEnabled && ps[p].stopStatus
    ensures p in ToStop(ps) <==> p < |ps| && ps[p].isEnabled && p != 2
    ensures p in Told(ps) <==> p < |ps| && ps[p].isEnabled && ps[p].startStatus && p != 2
  {}

  /** An answer counts for nobody but its profile, and only if that is enabled. */
  lemma {:induction false} OthersKeepTheirStatus(enabled: set<nat>, done: set<nat>, rs: seq<Reply>, p: nat)
    requires p !in enabled || p !in Profiles(rs)
    ensures p in Recorded(enabled, done, rs) <==> p in done
    decreases |rs|
  {
    if rs != [] {
      var init, r := rs[..|rs| - 1], rs[|rs| - 1];
      assert rs == init + [r];
      ProfilesNext(init, r);
      OthersKeepTheirStatus(enabled, done, init, p);
    }
  }

  lemma OnceOrNever(p: Post)
    ensures Times(0, p) == [] && Times(1, p) == [p]
  {}

  class Gap {
    /** `profile_config` */
    const config: array<Profile>
    var posted: seq<Post>

    constructor (config: array<Profile>)
      ensures this.config == config && posted == []
    {
      this.config, posted := config, [];
    }

    /** `PROFILE_API_START`: all enabled profiles are told to start. */
    method StartAll()
      modifies this`posted, config
      ensures Enabled(config[..]) == old(Enabled(config[..])) && Stopped(config[..]) == old(Stopped(config[..]))
      ensures Started(config[..]) == {}
      ensures posted == old(posted) + Orders(false, Enabled(config[..]), config.Length)
    {
      hide Enabled, Started, Stopped, Told;
      ghost var before := config[..];
      var p := 0;
      while p < config.Length
        invariant p <= config.Length && posted == old(posted)
        invariant forall i :: 0 <= i < config.Length ==>
                    config[i] == if i < p && before[i].isEnabled then before[i].(startStatus := false) else before[i]
      {
        if config[p].isEnabled {
          config[p] := config[p].(startStatus := false);
        }
        p := p + 1;
      }
      StartsCleared(before, config[..]);
      p := 0;
      ghost var ps := config[..];
      while p < config.Length
        invariant p <= config.Length && config[..] == ps
        invariant posted == old(posted) + Orders(false, Enabled(ps), p)
      {
        WhoIs(ps, p);
        if config[p].isEnabled {
          posted := posted + [Start(p)];
        }
        p := p + 1;
      }
    }

    /** `PROFILE_EVENT_START_DONE`: Bluetooth is enabled when all enabled profiles have started. */
    method StartDone(r: Reply)
      modifies this`posted, config
      ensures Enabled(config[..]) == old(Enabled(config[..])) && Stopped(config[..]) == old(Stopped(config[..]))
      ensures Started(config[..]) == Record(Enabled(config[..]), old(Started(config[..])), r)
      ensures posted == old(posted) + if Enabled(config[..]) <= Started(config[..]) then [BtEnabled] else []
    {
      var p := 0;
      while p < config.Length
        invariant p <= config.Length && posted == old(posted)
        invariant forall i :: 0 <= i < config.Length ==>
                    config[i] == if i < p && i == r.profile && old(config[i]).isEnabled
                                 then old(config[i]).(startStatus := r.status) else old(config[i])
      {
        if config[p].isEnabled && p == r.profile {
          config[p] := config[p].(startStatus := r.status);
        }
        p := p + 1;
      }
      p := 0;
      ghost var ps := config[..];
      while p < config.Length
        invariant p <= config.Length && config[..] == ps && posted == old(posted)
        invariant forall i :: 0 <= i < p ==> ps[i].isEnabled ==> ps[i].startStatus
      {
        if config[p].isEnabled && !config[p].startStatus {
          assert p in Enabled(ps) && p !in Started(ps);
          return;
        }
        p := p + 1;
      }
      posted := posted + [BtEnabled];
    }

    /** A cycle of answers to `StartAll`. */
    method StartAnswered(rs: seq<Reply>)
      modifies this`posted, config
      ensures Enabled(config[..]) == old(Enabled(config[..])) && Stopped(config[..]) == old(Stopped(config[..]))
      ensures var ps := old(config[..]);
              && Started(config[..]) == Recorded(Enabled(ps), Started(ps), rs)
              && posted == old(posted) + Times(Openings(Enabled(ps), Enabled(ps), Started(ps), rs), BtEnabled)
    {
      ghost var ps := config[..];
      var i := 0;
      while i < |rs|
        invariant i <= |rs| && Enabled(config[..]) == Enabled(ps) && Stopped(config[..]) == Stopped(ps)
        invariant Started(config[..]) == Recorded(Enabled(ps), Started(ps), rs[..i])
        invariant posted == old(posted) + Times(Openings(Enabled(ps), Enabled(ps), Started(ps), rs[..i]), BtEnabled)
      {
        assert rs[..i + 1][..i] == rs[..i];
        StartDone(rs[i]);
        i := i + 1;
      }
      assert rs[..i] == rs;
    }

    /** `A2DP_SINK_CLEANUP_DONE`: all profiles that have started are told to stop. */
    method StopAll()
      modifies this`posted, config
      ensures Enabled(config[..]) == old(Enabled(config[..])) && Started(config[..]) == old(Started(config[..]))
      ensures Stopped(config[..]) == {}
      ensures posted == old(posted) + Orders(true, Told(config[..]), config.Length)
    {
      hide Enabled, Started, Stopped, Told;
      ghost var before := config[..];
      var p := 0;
      while p < config.Length
        invariant p <= config.Length && posted == old(posted)
        invariant forall i :: 0 <= i < config.Length ==>
                    config[i] == if i < p && before[i].isEnabled then before[i].(stopStatus := false) else before[i]
      {
        if config[p].isEnabled {
          config[p] := config[p].(stopStatus := false);
        }
        p := p + 1;
      }
      StopsCleared(before, config[..]);
      p := 0;
      ghost var ps := config[..];
      while p < config.Length
        invariant p <= config.Length && config[..] == ps
        invariant posted == old(posted) + Orders(true, Told(ps), p)
      {
        WhoIs(ps, p);
        if config[p].isEnabled && config[p].startStatus && p != PROFILE_ID_BT_AM {
          posted := posted + [Stop(p)];
        }
        p := p + 1;
      }
    }

    /** A whole start: the orders, and the answers of enabled profiles. */
    method StartAllAnswered(rs: seq<Reply>)
      requires Once(rs) && forall r :: r in rs ==> r.status && r.profile in Enabled(config[..])
      modifies this`posted, config
      ensures var ps := old(config[..]);
              posted == old(posted) + Orders(false, Enabled(ps), config.Length)
                        + (if rs != [] && Profiles(rs) == Enabled(ps) then [BtEnabled] else [])
    {
      hide Enabled, Started, Stopped, Openings, Recorded, Once, Profiles, Orders;
      StartCycle(config[..], rs);
      OnceOrNever(BtEnabled);
      StartAll();
      StartAnswered(rs);
    }

    /** A whole stop: the orders, and the answers of profiles that were told to stop. */
    method StopAllAnswered(rs: seq<Reply>)
      requires PROFILE_ID_BT_AM < config.Length
      requires Once(rs) && forall r :: r in rs ==> r.status && r.profile in Told(config[..])
      modifies this`posted, config
      ensures var ps := old(config[..]);
              posted == old(posted) + Orders(true, Told(ps), config.Length)
                        + (if rs != [] && Profiles(rs) == ToStop(ps) then [AmStep(ps)] else [])
    {
      hide Enabled, Started, Stopped, Openings, Recorded, Once, Profiles, Orders;
      StopCycle(config[..], rs);
      OnceOrNever(AmStep(config[..]));
      StopAll();
      StopAnswered(rs);
    }

    /** `PROFILE_EVENT_STOP_DONE`: the audio manager is disabled when all others have stopped. */
    method StopDone(r: Reply)
      requires PROFILE_ID_BT_AM < config.Length
      modifies this`posted, config
      ensures Enabled(config[..]) == old(Enabled(config[..])) && Started(config[..]) == old(Started(config[..]))
      ensures Stopped(config[..]) == Record(Enabled(config[..]), old(Stopped(config[..])), r)
      ensures posted == old(posted) + if ToStop(config[..]) <= Stopped(config[..]) then [AmStep(config[..])] else []
    {
      var p := 0;
      while p < config.Length
        invariant p <= config.Length && posted == old(posted)
        invariant forall i :: 0 <= i < config.Length ==>
                    config[i] == if i < p && i == r.profile && old(config[i]).isEnabled
                                 then old(config[i]).(stopStatus := r.status) else old(config[i])
      {
        if config[p].isEnabled && p == r.profile {
          config[p] := config[p].(stopStatus := r.status);
        }
        p := p + 1;
      }
      p := 0;
      ghost var ps := config[..];
      while p < config.Length
        invariant p <= config.Length && config[..] == ps && posted == old(posted)
        invariant forall i :: 0 <= i < p && i != PROFILE_ID_BT_AM ==> ps[i].isEnabled ==> ps[i].stopStatus
      {
        if config[p].isEnabled && !config[p].stopStatus && p != PROFILE_ID_BT_AM {
          assert p in ToStop(ps) && p !in Stopped(ps);
          return;
        }
        p := p + 1;
      }
      if !config[PROFILE_ID_BT_AM].isEnabled {
        posted := posted + [AmDisableDone];
      } else {
        posted := posted + [AmDisableReq];
      }
    }

    /** A cycle of answers to `StopAll`. */
    method StopAnswered(rs: seq<Reply>)
      requires PROFILE_ID_BT_AM < config.Length
      modifies this`posted, config
      ensures Enabled(config[..]) == old(Enabled(config[..])) && Started(config[..]) == old(Started(config[..]))
      ensures var ps := old(config[..]);
              && Stopped(config[..]) == Recorded(Enabled(ps), Stopped(ps), rs)
              && posted == old(posted) + Times(Openings(Enabled(ps), ToStop(ps), Stopped(ps), rs), AmStep(ps))
    {
      ghost var ps := config[..];
      var i := 0;
      while i < |rs|
        invariant i <= |rs| && Enabled(config[..]) == Enabled(ps) && Started(config[..]) == Started(ps)
        invariant Stopped(config[..]) == Recorded(Enabled(ps), Stopped(ps), rs[..i])
        invariant posted == old(posted) + Times(Openings(Enabled(ps), ToStop(ps), Stopped(ps), rs[..i]), AmStep(ps))
      {
        assert rs[..i + 1][..i] == rs[..i];
        StopDone(rs[i]);
        i := i + 1;
      }
      assert rs[..i] == rs;
    }
  }
}

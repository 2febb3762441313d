/**
  The behaviour that all six buffer converters share.  A converter reads its source one
  character at a time; what it does at one place is a `Step`, and a whole call is the repetition
  of that step until the source ends, the step stops, or the target is full.  The theorems here
  hold of every converter whose step meets the stated conditions; `ConvertUTFTheorems` applies
  them to the six of ConvertUTF.c.
 */
module Conversion {
  import opened Sequences

  datatype ConversionResult = ConversionOK | SourceExhausted | TargetExhausted | SourceIllegal

  datatype ConversionFlags = StrictConversion | LenientConversion

  /**
    What a converter does with the non-empty rest of its source:
    - `Stop`: it leaves the source where it is and returns `code`;
    - `Emit`: it consumes `used` units, writes `out` and goes on.  `illegal` says that it has also
      noted `SourceIllegal` as the result of the call, although it does not stop.
    Either way it needs `need` free target units to get that far, and reports
    `TargetExhausted` when there are fewer.
   */
  datatype Step<T> =
    | Stop(need: nat, code: ConversionResult)
    | Emit(need: nat, used: nat, out: seq<T>, illegal: bool)

  /**
    What one call did: units consumed, units written, why it stopped (`ConversionOK` at the end
    of the source), and whether some step was marked illegal on the way.
   */
  datatype Trace<T> = Trace(consumed: nat, out: seq<T>, stop: ConversionResult, marked: bool) {
    /** The code that the call returns. */
    function Code(): ConversionResult {
      if stop.ConversionOK? && marked then SourceIllegal else stop
    }
  }

  /** `all` is what the call `first` did, followed by what `second` did from there. */
  ghost predicate Joins<T>(first: Trace<T>, second: Trace<T>, all: Trace<T>) {
    && all.consumed == first.consumed + second.consumed
    && all.out == first.out + second.out
    && all.stop == second.stop
    && all.marked == (first.marked || second.marked)
  }

  /** A call that begins with `step` and then does `rest`. */
  function Prepend<T>(step: Step<T>, rest: Trace<T>): Trace<T>
    requires step.Emit?
  {
    Trace(step.used + rest.consumed, step.out + rest.out, rest.stop, step.illegal || rest.marked)
  }

  lemma PrependJoins<T>(step: Step<T>, first: Trace<T>, second: Trace<T>, all: Trace<T>)
    requires step.Emit? && Joins(first, second, all)
    ensures Joins(Prepend(step, first), second, Prepend(step, all))
  {
    assert (step.out + first.out) + second.out == step.out + (first.out + second.out);
  }

  predicate ValidStep<T>(step: Step<T>, available: nat, most: nat) {
    match step
    case Stop(need, code) => need <= most && (code == SourceExhausted || code == SourceIllegal)
    case Emit(need, used, out, _) => |out| <= need <= most && 0 < used <= available
  }

  /** Every step makes progress, and needs room for at most `most` target units. */
  ghost predicate Valid<S(!new), T>(step: seq<S> -> Step<T>, most: nat) {
    forall s {:trigger step(s)} :: s != [] ==> ValidStep(step(s), |s|, most)
  }

  /** One call on source `s` with `room` free target units. */
  ghost function Run<S(!new), T>(step: seq<S> -> Step<T>, most: nat, s: seq<S>, room: nat): Trace<T>
    requires Valid(step, most)
    decreases |s|
  {
    if s == [] then
      Trace(0, [], ConversionOK, false)
    else
      assert ValidStep(step(s), |s|, most);
      if step(s).need > room then
        Trace(0, [], TargetExhausted, false)
      else
        match step(s)
        case Stop(_, code) => Trace(0, [], code, false)
        case Emit(_, used, out, _) => Prepend(step(s), Run(step, most, s[used..], room - |out|))
  }

  /** One call with as much target room as it takes. */
  ghost function Whole<S(!new), T>(step: seq<S> -> Step<T>, most: nat, s: seq<S>): Trace<T>
    requires Valid(step, most)
    decreases |s|
  {
    if s == [] then
      Trace(0, [], ConversionOK, false)
    else
      assert ValidStep(step(s), |s|, most);
      match step(s)
      case Stop(_, code) => Trace(0, [], code, false)
      case Emit(_, used, _, _) => Prepend(step(s), Whole(step, most, s[used..]))
  }

  lemma {:induction false} RunBounds<S(!new), T>(step: seq<S> -> Step<T>, most: nat, s: seq<S>, room: nat)
    requires Valid(step, most)
    ensures var r := Run(step, most, s, room);
            && r.consumed <= |s| && |r.out| <= room
            && (r.stop.ConversionOK? ==> r.consumed == |s|)
            && (r.stop.TargetExhausted? && most <= room ==> 0 < r.consumed)
            && (r.stop.TargetExhausted? || r.stop.SourceExhausted? ==> r.consumed < |s|)
    decreases |s|
  {
    if s != [] {
      assert ValidStep(step(s), |s|, most);
      if step(s).need <= room && step(s).Emit? {
        RunBounds(step, most, s[step(s).used..], room - |step(s).out|);
      }
    }
  }

  lemma {:induction false} WholeBounds<S(!new), T>(step: seq<S> -> Step<T>, most: nat, s: seq<S>)
    requires Valid(step, most)
    ensures var w := Whole(step, most, s);
            && w.consumed <= |s| && !w.stop.TargetExhausted?
            && (w.stop.ConversionOK? <==> w.consumed == |s|)
    decreases |s|
  {
    if s != [] {
      assert ValidStep(step(s), |s|, most);
      if step(s).Emit? {
        WholeBounds(step, most, s[step(s).used..]);
      }
    }
  }

  // ------------------------------------------------------------------------------------------
  // Target room

  /** The part of the unbounded conversion of `s` that a call with `room` units leaves undone. */
  ghost predicate PrefixOfWhole<S(!new), T>(step: seq<S> -> Step<T>, most: nat, s: seq<S>, room: nat)
    requires Valid(step, most)
  {
    var r := Run(step, most, s, room);
    && r.consumed <= |s|
    && if r.stop.TargetExhausted?
       then Joins(r, Whole(step, most, s[r.consumed..]), Whole(step, most, s))
       else Whole(step, most, s) == r
  }

  /**
    A call that ran out of target room did the first part of the unbounded conversion, and left
    the source where the rest of that conversion starts; any other call did all of it.
   */
  lemma {:induction false} RunIsPrefixOfWhole<S(!new), T>(
    step: seq<S> -> Step<T>, most: nat, s: seq<S>, room: nat)
    requires Valid(step, most)
    ensures PrefixOfWhole(step, most, s, room)
    decreases |s|
  {
    if s != [] {
      assert ValidStep(step(s), |s|, most);
      if step(s).need > room {
        assert s[0..] == s;
      } else if step(s).Stop? {
        assert Run(step, most, s, room) == Trace(0, [], step(s).code, false);
      } else {
        RunIsPrefixOfWhole(step, most, s[step(s).used..], room - |step(s).out|);
        PrefixAtEmit(step, most, s, room);
      }
    }
  }

  /** A call whose first step writes something begins with that step. */
  lemma EmitFirst<S(!new), T>(step: seq<S> -> Step<T>, most: nat, s: seq<S>, room: nat)
    requires Valid(step, most)
    requires s != [] && step(s).Emit? && step(s).need <= room && ValidStep(step(s), |s|, most)
    ensures var Emit(_, used, out, _) := step(s);
            && Run(step, most, s, room) == Prepend(step(s), Run(step, most, s[used..], room - |out|))
            && Whole(step, most, s) == Prepend(step(s), Whole(step, most, s[used..]))
  {}

  lemma NoRoomForFirst<S(!new), T>(step: seq<S> -> Step<T>, most: nat, s: seq<S>, room: nat)
    requires Valid(step, most) && s != [] && step(s).need > room
    ensures Run(step, most, s, room) == Trace(0, [], TargetExhausted, false)
  {}

  lemma StopFirst<S(!new), T>(step: seq<S> -> Step<T>, most: nat, s: seq<S>, room: nat)
    requires Valid(step, most) && s != [] && step(s).Stop?
    ensures Whole(step, most, s) == Trace(0, [], step(s).code, false)
    ensures Run(step, most, s, room)
         == if step(s).need > room then Trace(0, [], TargetExhausted, false) else Trace(0, [], step(s).code, false)
  {}

  lemma NothingToDo<S(!new), T>(step: seq<S> -> Step<T>, most: nat, s: seq<S>, room: nat)
    requires Valid(step, most) && s == []
    ensures Whole(step, most, s) == Run(step, most, s, room) == Trace(0, [], ConversionOK, false)
  {}

  lemma PrefixAtEmit<S(!new), T>(step: seq<S> -> Step<T>, most: nat, s: seq<S>, room: nat)
    requires Valid(step, most)
    requires s != [] && step(s).Emit? && step(s).need <= room && ValidStep(step(s), |s|, most)
    requires PrefixOfWhole(step, most, s[step(s).used..], room - |step(s).out|)
    ensures PrefixOfWhole(step, most, s, room)
  {
    hide Run, Whole, Valid;
    EmitFirst(step, most, s, room);
    var Emit(_, used, out, _) := step(s);
    var rest := Run(step, most, s[used..], room - |out|);
    var whole := Whole(step, most, s[used..]);
    if rest.stop.TargetExhausted? {
      DropTwice(s, used, rest.consumed);
      PrependJoins(step(s), rest, Whole(step, most, s[used..][rest.consumed..]), whole);
    }
  }

  /** `k` target units for each source unit suffice for every step. */
  ghost predicate Rate<S(!new), T>(step: seq<S> -> Step<T>, k: nat) {
    forall s {:trigger step(s)} :: s != [] ==>
      match step(s)
      case Stop(need, _) => need <= k
      case Emit(need, used, out, _) => need <= k * used && |out| <= k * used
  }

  /** With `k` target units for each source unit the target never runs out. */
  lemma {:induction false} RoomSuffices<S(!new), T>(
    step: seq<S> -> Step<T>, most: nat, k: nat, s: seq<S>, room: nat)
    requires Valid(step, most) && Rate(step, k)
    requires k * |s| <= room
    ensures Run(step, most, s, room) == Whole(step, most, s)
    decreases |s|
  {
    if s != [] {
      assert ValidStep(step(s), |s|, most);
      match step(s)
      case Stop(need, code) =>
        MulMonotone(k, 1, |s|);
        assert Run(step, most, s, room) == Trace(0, [], code, false);
      case Emit(need, used, out, _) =>
        MulMonotone(k, used, |s|);
        RoomSuffices(step, most, k, s[used..], room - |out|);
        assert Run(step, most, s, room)
            == Prepend(step(s), Run(step, most, s[used..], room - |out|));
    }
  }

  /** A step needs the room for what it writes, and no room to stop. */
  ghost predicate Tight<S(!new), T>(step: seq<S> -> Step<T>) {
    forall s {:trigger step(s)} :: s != [] ==>
      match step(s)
      case Stop(need, _) => need == 0
      case Emit(need, _, out, _) => need == |out|
  }

  /** Then the target runs out exactly if it is smaller than the whole output. */
  lemma {:induction false} ExactRoom<S(!new), T>(step: seq<S> -> Step<T>, most: nat, s: seq<S>, room: nat)
    requires Valid(step, most) && Tight(step)
    ensures Run(step, most, s, room).stop.TargetExhausted? <==> room < |Whole(step, most, s).out|
    ensures Run(step, most, s, room) == Whole(step, most, s) <==> |Whole(step, most, s).out| <= room
    decreases |s|
  {
    RunIsPrefixOfWhole(step, most, s, room);
    WholeBounds(step, most, s);
    if s != [] {
      assert ValidStep(step(s), |s|, most);
      if step(s).Emit? && step(s).need <= room {
        var used, left := step(s).used, room - |step(s).out|;
        ExactRoom(step, most, s[used..], left);
        EmitFirst(step, most, s, room);
      }
    }
  }

  lemma MulMonotone(k: nat, m: nat, n: nat)
    requires m <= n
    ensures k * m <= k * n
    ensures k * (n - m) == k * n - k * m
  {
    assert k * n == k * m + k * (n - m);
  }

  // ------------------------------------------------------------------------------------------
  // Chunked conversion: call again with a fresh target while the answer is `TargetExhausted`

  ghost predicate Rooms(rooms: nat -> nat, most: nat) {
    forall i :: most <= rooms(i)
  }

  /**
    The caller's loop: call number `i` gets a target of `rooms(i)` units, and each call goes on
    where the one before stopped.  Returns the concatenated effect of all calls, and the last one.
   */
  ghost function Chunked<S(!new), T>(
    step: seq<S> -> Step<T>, most: nat, s: seq<S>, rooms: nat -> nat, i: nat): (Trace<T>, Trace<T>)
    requires Valid(step, most) && Rooms(rooms, most)
    decreases |s|
  {
    var r := Run(step, most, s, rooms(i));
    RunBounds(step, most, s, rooms(i));
    if r.stop.TargetExhausted? then
      var (rest, last) := Chunked(step, most, s[r.consumed..], rooms, i + 1);
      (Trace(r.consumed + rest.consumed, r.out + rest.out, rest.stop, r.marked || rest.marked), last)
    else
      (r, r)
  }

  /**
    Whatever the sizes of the targets, as long as each holds one character, the calls together
    consume and write what one call with enough room does.  The codes agree exactly when
    it is not the case that only earlier calls met the values that mark the result illegal.
   */
  lemma {:induction false} ChunkedIsWhole<S(!new), T>(
    step: seq<S> -> Step<T>, most: nat, s: seq<S>, rooms: nat -> nat, i: nat)
    requires Valid(step, most) && Rooms(rooms, most)
    ensures var (all, last) := Chunked(step, most, s, rooms, i);
            var whole := Whole(step, most, s);
            && all == whole
            && last.stop == whole.stop
            && (last.marked ==> whole.marked)
            && (last.Code() == whole.Code()
                <==> !(whole.stop.ConversionOK? && whole.marked && !last.marked))
    decreases |s|
  {
    var r := Run(step, most, s, rooms(i));
    RunBounds(step, most, s, rooms(i));
    RunIsPrefixOfWhole(step, most, s, rooms(i));
    if r.stop.TargetExhausted? {
      ChunkedIsWhole(step, most, s[r.consumed..], rooms, i + 1);
    }
  }

  /** The last call ends with the code of one call on the whole, whatever the sizes of the targets. */
  ghost predicate ChunkCodesAgree<S(!new), T>(step: seq<S> -> Step<T>, most: nat, s: seq<S>)
    requires Valid(step, most)
  {
    forall rooms: nat -> nat {:trigger Chunked(step, most, s, rooms, 0)} ::
      Rooms(rooms, most) ==> Chunked(step, most, s, rooms, 0).1.Code() == Whole(step, most, s).Code()
  }

  /** Where the target ends, the step there needs more than the room that is left. */
  lemma {:induction false} WhereTheTargetEnds<S(!new), T>(
    step: seq<S> -> Step<T>, most: nat, s: seq<S>, room: nat)
    requires Valid(step, most)
    ensures var r := Run(step, most, s, room);
            r.stop.TargetExhausted? ==>
              r.consumed < |s| && |r.out| <= room && step(s[r.consumed..]).need > room - |r.out|
    decreases |s|
  {
    if s != [] {
      assert ValidStep(step(s), |s|, most);
      if step(s).need > room {
        assert s[0..] == s;
      } else if step(s).Emit? {
        var used := step(s).used;
        WhereTheTargetEnds(step, most, s[used..], room - |step(s).out|);
        var rest := Run(step, most, s[used..], room - |step(s).out|);
        assert rest.stop.TargetExhausted? ==> s[used..][rest.consumed..] == s[used + rest.consumed..];
      }
    }
  }

  /** The last call is never empty, unless the source is. */
  lemma {:induction false} LastCallIsNotEmpty<S(!new), T>(
    step: seq<S> -> Step<T>, most: nat, s: seq<S>, rooms: nat -> nat, i: nat)
    requires Valid(step, most) && Rooms(rooms, most) && s != []
    ensures var last := Chunked(step, most, s, rooms, i).1;
            last.stop.ConversionOK? ==> 0 < last.consumed
    decreases |s|
  {
    hide Run, Valid;
    var r := Run(step, most, s, rooms(i));
    RunBounds(step, most, s, rooms(i));
    if r.stop.TargetExhausted? {
      LastCallIsNotEmpty(step, most, s[r.consumed..], rooms, i + 1);
    }
  }

  lemma ChunkedNext<S(!new), T>(step: seq<S> -> Step<T>, most: nat, s: seq<S>, rooms: nat -> nat, i: nat)
    requires Valid(step, most) && Rooms(rooms, most)
    ensures var r := Run(step, most, s, rooms(i));
            && r.consumed <= |s|
            && Chunked(step, most, s, rooms, i).1
               == if r.stop.TargetExhausted? then Chunked(step, most, s[r.consumed..], rooms, i + 1).1 else r
  {
    RunBounds(step, most, s, rooms(i));
  }

  /** Two calls that get to the end of the source. */
  lemma TwoCalls<S(!new), T>(step: seq<S> -> Step<T>, most: nat, s: seq<S>, rooms: nat -> nat)
    requires Valid(step, most) && Rooms(rooms, most)
    requires Run(step, most, s, rooms(0)).stop.TargetExhausted? && Run(step, most, s, rooms(0)).consumed <= |s|
    requires Run(step, most, s[Run(step, most, s, rooms(0)).consumed..], rooms(1)).stop.ConversionOK?
    ensures Chunked(step, most, s, rooms, 0).1
         == Run(step, most, s[Run(step, most, s, rooms(0)).consumed..], rooms(1))
  {
    RunBounds(step, most, s, rooms(0));
    var rest := s[Run(step, most, s, rooms(0)).consumed..];
    assert Chunked(step, most, rest, rooms, 1).1 == Run(step, most, rest, rooms(1));
  }

  /** Calls that end with another code than one call are more than one. */
  lemma CodesDiffer<S(!new), T>(step: seq<S> -> Step<T>, most: nat, s: seq<S>, rooms: nat -> nat)
    requires Valid(step, most) && Rooms(rooms, most)
    requires Chunked(step, most, s, rooms, 0).1.Code() != Whole(step, most, s).Code()
    ensures var r := Run(step, most, s, rooms(0));
            && r.stop.TargetExhausted? && r.consumed < |s| && step(s[r.consumed..]).need > rooms(0) - |r.out|
            && |r.out| <= rooms(0)
            && Joins(r, Whole(step, most, s[r.consumed..]), Whole(step, most, s))
            && Chunked(step, most, s, rooms, 0).1 == Chunked(step, most, s[r.consumed..], rooms, 1).1
  {
    RunBounds(step, most, s, rooms(0));
    WhereTheTargetEnds(step, most, s, rooms(0));
    RunIsPrefixOfWhole(step, most, s, rooms(0));
  }

  /** If the calls get to the end of the source, the last one has converted all that was left for it. */
  lemma {:induction false} LastCallIsWhole<S(!new), T>(
    step: seq<S> -> Step<T>, most: nat, s: seq<S>, rooms: nat -> nat, i: nat)
    requires Valid(step, most) && Rooms(rooms, most)
    ensures var (_, last) := Chunked(step, most, s, rooms, i);
            && last.consumed <= |s|
            && (last.stop.ConversionOK? ==> last == Whole(step, most, s[|s| - last.consumed..]))
    decreases |s|
  {
    hide Run, Whole, Valid;
    var r := Run(step, most, s, rooms(i));
    RunBounds(step, most, s, rooms(i));
    if r.stop.TargetExhausted? {
      var rest := s[r.consumed..];
      LastCallIsWhole(step, most, rest, rooms, i + 1);
      var last := Chunked(step, most, rest, rooms, i + 1).1;
      DropTwice(s, r.consumed, |rest| - last.consumed);
    } else {
      RunIsPrefixOfWhole(step, most, s, rooms(i));
      assert s[0..] == s;
    }
  }

  // ------------------------------------------------------------------------------------------
  // Split sources: convert a first piece, keep its unconsumed tail in front of the second piece

  /** Unless it asks for more source, a step does not depend on what follows. */
  ghost predicate Stable<S(!new), T>(step: seq<S> -> Step<T>) {
    forall a, b {:trigger step(a + b)} ::
      a != [] && !(step(a).Stop? && step(a).code.SourceExhausted?) ==> step(a + b) == step(a)
  }

  predicate AsksForMore(code: ConversionResult) {
    code.ConversionOK? || code.SourceExhausted?
  }

  /** A step that asks for more source does so whether or not there is target room. */
  ghost predicate ExhaustsFirst<S(!new), T>(step: seq<S> -> Step<T>) {
    forall s {:trigger step(s)} :: s != [] && step(s).Stop? && step(s).code.SourceExhausted? ==> step(s).need == 0
  }

  /** Converting `a`, then its unconsumed tail followed by `b`, is converting `a + b`. */
  ghost predicate SplitsAt<S(!new), T>(
    step: seq<S> -> Step<T>, most: nat, a: seq<S>, b: seq<S>, room: nat)
    requires Valid(step, most)
  {
    var r := Run(step, most, a, room);
    && r.consumed <= |a| && |r.out| <= room
    && if AsksForMore(r.stop)
       then Joins(r, Run(step, most, a[r.consumed..] + b, room - |r.out|), Run(step, most, a + b, room))
       else Run(step, most, a + b, room) == r
  }

  /**
    However the source is split, the two calls together are one call on the whole; if the first
    call stopped for a reason other than the end of its source, the second piece makes no
    difference.
   */
  lemma {:induction false} SplitIsWhole<S(!new), T>(
    step: seq<S> -> Step<T>, most: nat, a: seq<S>, b: seq<S>, room: nat)
    requires Valid(step, most) && Stable(step) && ExhaustsFirst(step)
    ensures SplitsAt(step, most, a, b, room)
    decreases |a|
  {
    var r := Run(step, most, a, room);
    if a == [] || (step(a).Stop? && step(a).code.SourceExhausted?) {
      assert r == Trace(0, [], r.stop, false);
      assert a[0..] + b == a + b;
    } else {
      assert step(a + b) == step(a);
      assert ValidStep(step(a), |a|, most);
      if step(a).need > room {
        assert r == Trace(0, [], TargetExhausted, false);
      } else if step(a).Stop? {
        assert r == Trace(0, [], step(a).code, false);
      } else {
        SplitIsWhole(step, most, a[step(a).used..], b, room - |step(a).out|);
        SplitAtEmit(step, most, a, b, room);
      }
    }
  }

  /** No step notes an illegal value and goes on. */
  ghost predicate Unmarked<S(!new), T>(step: seq<S> -> Step<T>) {
    forall s {:trigger step(s)} :: s != [] && step(s).Emit? ==> !step(s).illegal
  }

  lemma {:induction false} NeverMarked<S(!new), T>(step: seq<S> -> Step<T>, most: nat, s: seq<S>, room: nat)
    requires Valid(step, most) && Unmarked(step)
    ensures !Run(step, most, s, room).marked
    decreases |s|
  {
    if s != [] {
      assert ValidStep(step(s), |s|, most);
      if step(s).need <= room && step(s).Emit? {
        NeverMarked(step, most, s[step(s).used..], room - |step(s).out|);
      }
    }
  }

  /** The code of the second call is that of one call on the whole. */
  ghost predicate SplitCodesAgree<S(!new), T>(
    step: seq<S> -> Step<T>, most: nat, a: seq<S>, b: seq<S>, room: nat)
    requires Valid(step, most) && SplitsAt(step, most, a, b, room)
  {
    var r := Run(step, most, a, room);
    AsksForMore(r.stop) ==>
      Run(step, most, a[r.consumed..] + b, room - |r.out|).Code() == Run(step, most, a + b, room).Code()
  }

  /** So it is unless only the first call met a value that marks the result illegal. */
  lemma SplitCodes<S(!new), T>(step: seq<S> -> Step<T>, most: nat, a: seq<S>, b: seq<S>, room: nat)
    requires Valid(step, most) && SplitsAt(step, most, a, b, room)
    ensures var r, all := Run(step, most, a, room), Run(step, most, a + b, room);
            SplitCodesAgree(step, most, a, b, room) <==>
              (AsksForMore(r.stop) && all.stop.ConversionOK? && r.marked ==>
                 Run(step, most, a[r.consumed..] + b, room - |r.out|).marked)
    ensures Unmarked(step) ==> SplitCodesAgree(step, most, a, b, room)
  {
    if Unmarked(step) {
      NeverMarked(step, most, a, room);
    }
    hide Run, Valid, Unmarked;
  }

  /** With room for everything, and a converter that never asks for more source. */
  lemma SplitCodesOfWhole<S(!new), T>(step: seq<S> -> Step<T>, most: nat, a: seq<S>, b: seq<S>, room: nat)
    requires Valid(step, most) && SplitsAt(step, most, a, b, room)
    requires Run(step, most, a, room) == Whole(step, most, a) && !Whole(step, most, a).stop.SourceExhausted?
    requires Run(step, most, a + b, room) == Whole(step, most, a + b)
    ensures var first, second, all := Whole(step, most, a), Whole(step, most, b), Whole(step, most, a + b);
            && (all.stop.ConversionOK? ==> first.stop.ConversionOK? && second.stop.ConversionOK?)
            && (SplitCodesAgree(step, most, a, b, room) <==>
                  (all.stop.ConversionOK? && first.marked ==> second.marked))
  {
    SplitCodes(step, most, a, b, room);
    WholeBounds(step, most, a);
    hide Run, Whole, Valid;
    var first := Whole(step, most, a);
    if first.stop.ConversionOK? {
      assert a[first.consumed..] + b == b;
      RunIsPrefixOfWhole(step, most, b, room - |first.out|);
    }
  }

  lemma SplitAtEmit<S(!new), T>(
    step: seq<S> -> Step<T>, most: nat, a: seq<S>, b: seq<S>, room: nat)
    requires Valid(step, most)
    requires a != [] && step(a).Emit? && step(a).need <= room && ValidStep(step(a), |a|, most)
    requires step(a + b) == step(a)
    requires SplitsAt(step, most, a[step(a).used..], b, room - |step(a).out|)
    ensures SplitsAt(step, most, a, b, room)
  {
    var Emit(_, used, out, _) := step(a);
    var rest := Run(step, most, a[used..], room - |out|);
    assert (a + b)[used..] == a[used..] + b;
    assert Run(step, most, a, room) == Prepend(step(a), rest);
    assert Run(step, most, a + b, room) == Prepend(step(a), Run(step, most, a[used..] + b, room - |out|));
    if AsksForMore(rest.stop) {
      assert a[used..][rest.consumed..] == a[used + rest.consumed..];
      var tail := Run(step, most, a[used..][rest.consumed..] + b, room - |out| - |rest.out|);
      PrependJoins(step(a), rest, tail, Run(step, most, a[used..] + b, room - |out|));
    }
  }

  /** The step at `s` looks at no more units than it consumes. */
  ghost predicate LocalAt<S(!new), T>(step: seq<S> -> Step<T>, s: seq<S>) {
    s != [] && step(s).Emit? && 0 < step(s).used <= |s| ==> step(s[..step(s).used]) == step(s)
  }

  ghost predicate Local<S(!new), T>(step: seq<S> -> Step<T>) {
    forall s {:trigger LocalAt(step, s)} :: LocalAt(step, s)
  }

  /** What a call consumed of the source, converted by itself, gives exactly what the call wrote. */
  ghost predicate ConvertsAlone<S(!new), T>(step: seq<S> -> Step<T>, most: nat, s: seq<S>, room: nat)
    requires Valid(step, most)
  {
    var r := Run(step, most, s, room);
    r.consumed <= |s| && Whole(step, most, s[..r.consumed]) == r.(stop := ConversionOK)
  }

  /** So it is for every call, also one that runs out of target room, if steps are local. */
  lemma {:induction false} ConsumedConvertsAlone<S(!new), T>(
    step: seq<S> -> Step<T>, most: nat, s: seq<S>, room: nat)
    requires Valid(step, most) && Local(step) && Stable(step)
    ensures ConvertsAlone(step, most, s, room)
    decreases |s|
  {
    RunBounds(step, most, s, room);
    if s == [] || step(s).need > room || step(s).Stop? {
      NothingConvertsAlone(step, most, s, room);
    } else {
      assert ValidStep(step(s), |s|, most);
      var used, left := step(s).used, room - |step(s).out|;
      ConsumedConvertsAlone(step, most, s[used..], left);
      var rest := Run(step, most, s[used..], left);
      var head, tail := s[..used], s[used..][..rest.consumed];
      DropTwice(s, used, rest.consumed);
      assert LocalAt(step, s) && step(head + tail) == step(head);
      WholeOfEmit(step, most, head, tail);
    }
  }

  lemma NothingConvertsAlone<S(!new), T>(step: seq<S> -> Step<T>, most: nat, s: seq<S>, room: nat)
    requires Valid(step, most) && (s == [] || step(s).need > room || step(s).Stop?)
    ensures Run(step, most, s, room).consumed == 0 && ConvertsAlone(step, most, s, room)
  {
    if s != [] {
      assert ValidStep(step(s), |s|, most);
    }
    assert s[..0] == [];
  }

  /**
    If the consumed part does not change the first step, then it converts alone exactly if what
    was consumed after that step does.
   */
  lemma ConvertsAloneAfter<S(!new), T>(step: seq<S> -> Step<T>, most: nat, s: seq<S>, room: nat)
    requires Valid(step, most) && s != [] && step(s).Emit? && !step(s).illegal && step(s).need <= room
    requires Run(step, most, s, room).consumed <= |s|
    requires step(s[..Run(step, most, s, room).consumed]) == step(s)
    ensures step(s).used <= |s| && |step(s).out| <= room
    ensures ConvertsAlone(step, most, s, room)
       <==> ConvertsAlone(step, most, s[step(s).used..], room - |step(s).out|)
  {
    assert ValidStep(step(s), |s|, most);
    EmitFirst(step, most, s, room);
    var used := step(s).used;
    var rest := Run(step, most, s[used..], room - |step(s).out|);
    DropTwice(s, used, rest.consumed);
    var head, tail := s[..used], s[used..][..rest.consumed];
    WholeOfEmit(step, most, head, tail);
    var alone := Whole(step, most, tail);
    hide Run, Whole, Valid;
    if Prepend(step(s), alone) == Prepend(step(s), rest.(stop := ConversionOK)) {
      PrependInjective(step(s), alone, rest.(stop := ConversionOK));
    }
  }

  /** Where a call stops before the end of its source, the step there is what stops it. */
  lemma {:induction false} StopsWhereTheStepDoes<S(!new), T>(
    step: seq<S> -> Step<T>, most: nat, s: seq<S>)
    requires Valid(step, most)
    ensures var w := Whole(step, most, s);
            && w.consumed <= |s|
            && (w.consumed == 0 ==> w.out == [] && !w.marked)
            && (w.consumed == |s| ==> w.stop == ConversionOK)
            && (w.consumed < |s| ==>
                  var at := step(s[w.consumed..]); at.Stop? && w.stop == at.code)
    decreases |s|
  {
    WholeBounds(step, most, s);
    if s != [] {
      assert ValidStep(step(s), |s|, most);
      if step(s).Emit? {
        var used := step(s).used;
        StopsWhereTheStepDoes(step, most, s[used..]);
        var rest := Whole(step, most, s[used..]);
        assert s[used..][rest.consumed..] == s[used + rest.consumed..];
      } else {
        assert s[0..] == s;
      }
    }
  }

  /** A call whose first step consumes `head`. */
  lemma WholeOfEmit<S(!new), T>(step: seq<S> -> Step<T>, most: nat, head: seq<S>, tail: seq<S>)
    requires Valid(step, most) && head != []
    requires step(head + tail).Emit? && step(head + tail).used == |head|
    ensures Whole(step, most, head + tail) == Prepend(step(head + tail), Whole(step, most, tail))
  {
    assert (head + tail)[|head|..] == tail;
  }

  lemma PrependInjective<T>(step: Step<T>, a: Trace<T>, b: Trace<T>)
    requires step.Emit? && !step.illegal && Prepend(step, a) == Prepend(step, b)
    ensures a == b
  {
    assert a.out == (step.out + a.out)[|step.out|..];
    assert b.out == (step.out + b.out)[|step.out|..];
  }

  /** Whatever follows `head`, the step there reads `head` as `c`. */
  ghost predicate Reads<S(!new), T>(step: seq<S> -> Step<T>, head: seq<S>, c: T) {
    forall tail {:trigger step(head + tail)} ::
      var at := step(head + tail);
      at.Emit? && at.used == |head| && at.out == [c] && !at.illegal
  }

  /** In front of `rest`, the units `text` convert to `cs`. */
  ghost predicate Precedes<S(!new), T>(
    step: seq<S> -> Step<T>, most: nat, text: seq<S>, cs: seq<T>, rest: seq<S>)
    requires Valid(step, most)
  {
    var tail, all := Whole(step, most, rest), Whole(step, most, text + rest);
    && all.consumed == |text| + tail.consumed && all.out == cs + tail.out
    && all.stop == tail.stop && all.marked == tail.marked
  }

  lemma NothingPrecedes<S(!new), T>(step: seq<S> -> Step<T>, most: nat, rest: seq<S>)
    requires Valid(step, most)
    ensures Precedes(step, most, [], [], rest)
  {
    var tail := Whole(step, most, rest);
    assert [] + rest == rest && [] + tail.out == tail.out;
  }

  lemma ReadsThenPrecedes<S(!new), T>(
    step: seq<S> -> Step<T>, most: nat, head: seq<S>, c: T, text: seq<S>, cs: seq<T>, rest: seq<S>)
    requires Valid(step, most) && head != []
    requires Reads(step, head, c) && Precedes(step, most, text, cs, rest)
    ensures Precedes(step, most, head + text, [c] + cs, rest)
  {
    var tail := Whole(step, most, rest);
    assert (head + text) + rest == head + (text + rest);
    WholeOfEmit(step, most, head, text + rest);
    assert [c] + (cs + tail.out) == ([c] + cs) + tail.out;
  }

  /** Converters whose steps agree make the same calls. */
  lemma {:induction false} SameStepsSameRun<S(!new), T>(
    f: seq<S> -> Step<T>, g: seq<S> -> Step<T>, most: nat, s: seq<S>, room: nat)
    requires Valid(f, most) && Valid(g, most)
    requires forall x {:trigger f(x)} {:trigger g(x)} :: x != [] ==> f(x) == g(x)
    ensures Run(f, most, s, room) == Run(g, most, s, room)
    decreases |s|
  {
    if s != [] {
      assert ValidStep(f(s), |s|, most) && f(s) == g(s);
      if f(s).need <= room && f(s).Emit? {
        SameStepsSameRun(f, g, most, s[f(s).used..], room - |f(s).out|);
      }
    }
  }

  // ------------------------------------------------------------------------------------------
  // Two conversions in a row

  /** At `s`, converter `f` does in one step what `g` followed by `h` does in two. */
  ghost predicate Factors<S(!new), U(!new), T(!new)>(
    f: seq<S> -> Step<T>, g: seq<S> -> Step<U>, h: seq<U> -> Step<T>, s: seq<S>)
  {
    match g(s)
    case Stop(_, code) => f(s).Stop? && f(s).code == code
    case Emit(_, used, mid, illegal) =>
      && |mid| == 1 && !illegal
      && f(s).Emit? && f(s).used == used && !f(s).illegal
      && forall rest :: Writes(h, mid[0], rest, f(s).out)
  }

  /** In front of any `rest`, converter `h` turns `c` into `out`. */
  ghost predicate Writes<U, T>(h: seq<U> -> Step<T>, c: U, rest: seq<U>, out: seq<T>) {
    var step := h([c] + rest);
    step.Emit? && step.used == 1 && step.out == out && !step.illegal
  }

  /**
    If every step of `f` factors through `g` and `h`, then so does every call: `f` consumes what
    `g` consumes and stops as `g` does, and writes what `h` makes of everything `g` wrote.
   */
  lemma {:induction false} TriangleCommutes<S(!new), U(!new), T(!new)>(
    f: seq<S> -> Step<T>, g: seq<S> -> Step<U>, h: seq<U> -> Step<T>,
    mf: nat, mg: nat, mh: nat, s: seq<S>)
    requires Valid(f, mf) && Valid(g, mg) && Valid(h, mh)
    requires forall x: seq<S> :: x != [] ==> Factors(f, g, h, x)
    ensures var direct, first := Whole(f, mf, s), Whole(g, mg, s);
            var second := Whole(h, mh, first.out);
            && direct == Trace(first.consumed, second.out, first.stop, false)
            && !first.marked
            && second == Trace(|first.out|, direct.out, ConversionOK, false)
    decreases |s|
  {
    if s != [] {
      assert Factors(f, g, h, s);
      assert ValidStep(g(s), |s|, mg) && ValidStep(f(s), |s|, mf);
      if g(s).Emit? {
        var rest := s[g(s).used..];
        TriangleCommutes(f, g, h, mf, mg, mh, rest);
        var c, tail := g(s).out[0], Whole(g, mg, rest).out;
        assert Writes(h, c, tail, f(s).out);
        assert Whole(g, mg, s).out == [c] + tail;
        assert ([c] + tail)[1..] == tail;
        assert ValidStep(h([c] + tail), |[c] + tail|, mh);
        assert Whole(h, mh, [c] + tail)
            == Prepend(h([c] + tail), Whole(h, mh, tail));
        assert Whole(f, mf, s)
            == Prepend(f(s), Whole(f, mf, rest));
      }
    }
  }

  /** At `s`, converter `h` restores the units that one step of `g` consumed. */
  ghost predicate Restores<S(!new), U(!new)>(g: seq<S> -> Step<U>, h: seq<U> -> Step<S>, s: seq<S>)
    requires s != []
  {
    g(s).Emit? ==>
      && |g(s).out| == 1 && !g(s).illegal && g(s).used <= |s|
      && forall rest :: Writes(h, g(s).out[0], rest, s[..g(s).used])
  }

  /** Every step that `g` makes in the course of a call on `s` is restored by `h`. */
  ghost predicate RestoresAll<S(!new), U(!new)>(
    g: seq<S> -> Step<U>, h: seq<U> -> Step<S>, mg: nat, s: seq<S>)
    requires Valid(g, mg)
    decreases |s|
  {
    s != [] ==>
      assert ValidStep(g(s), |s|, mg);
      Restores(g, h, s) && (g(s).Emit? ==> RestoresAll(g, h, mg, s[g(s).used..]))
  }

  /** Converting there with `g` and back with `h` gives exactly the units that `g` consumed. */
  lemma {:induction false} ThereAndBack<S(!new), U(!new)>(
    g: seq<S> -> Step<U>, h: seq<U> -> Step<S>, mg: nat, mh: nat, s: seq<S>)
    requires Valid(g, mg) && Valid(h, mh)
    requires RestoresAll(g, h, mg, s)
    ensures var there := Whole(g, mg, s);
            && there.consumed <= |s|
            && Whole(h, mh, there.out) == Trace(|there.out|, s[..there.consumed], ConversionOK, false)
    decreases |s|
  {
    WholeBounds(g, mg, s);
    if s != [] {
      assert ValidStep(g(s), |s|, mg);
      if g(s).Emit? {
        var used := g(s).used;
        ThereAndBack(g, h, mg, mh, s[used..]);
        var c, tail := g(s).out[0], Whole(g, mg, s[used..]);
        assert Writes(h, c, tail.out, s[..used]);
        assert Whole(g, mg, s).out == [c] + tail.out;
        assert ([c] + tail.out)[1..] == tail.out;
        assert s[..used] + s[used..][..tail.consumed] == s[..used + tail.consumed];
      }
    }
  }
}

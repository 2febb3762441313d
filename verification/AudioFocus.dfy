/**
  The audio manager: profiles ask for the audio path and give it back, and a stack of entries says
  who has it.
 */
module AudioFocus {
  import opened Sequences

  /** `PROFILE_ID_MAX` marks an entry that is not in use; the other profiles are numbers below it. */
  const PROFILE_ID_MAX := 12

  type Profile = p: int | 0 <= p <= PROFILE_ID_MAX

  datatype RequestType = Permanent | Transient | Default

  datatype Status = Loss | LossTransient | GainTransient | Gain | Regained

  datatype Entry = Entry(profile: Profile, control: RequestType)

  const UNUSED := Entry(PROFILE_ID_MAX, Default)

  datatype Event = Request(profile: Profile, request: RequestType) | Release(profile: Profile)

  /** What a profile can tell: the messages sent to it, and its own releases. */
  datatype Note = Sent(status: Status, profile: Profile) | Released(profile: Profile)

  // ------------------------------------------------------------------------------------------
  // The stack as a list

  function Grants(e: Entry): seq<Note> {
    match e.control
    case Permanent => [Sent(Gain, e.profile)]
    case Transient => [Sent(GainTransient, e.profile)]
    case Default => []
  }

  function Top(stack: seq<Entry>): Entry
    requires stack != []
  {
    stack[|stack| - 1]
  }

  /** The index of the last entry of the profile, or -1. */
  function IndexOf(stack: seq<Entry>, p: Profile): (k: int)
    ensures -1 <= k < |stack| && (k >= 0 ==> stack[k].profile == p)
    ensures forall i :: k < i < |stack| ==> stack[i].profile != p
  {
    if stack == [] || Top(stack).profile == p then |stack| - 1 else IndexOf(stack[..|stack| - 1], p)
  }

  /** What is done with a request when `size` entries are available. */
  function Requested(size: nat, stack: seq<Entry>, e: Entry): (seq<Entry>, seq<Note>) {
    if stack == [] then ([e], Grants(e))
    else if Top(stack).profile == e.profile then (stack, Grants(Top(stack)))
    else match (Top(stack).control, e.control)
      case (Transient, _) => (stack, [Sent(LossTransient, e.profile)])
      case (Permanent, Transient) =>
        if |stack| >= size then (stack, [Sent(Loss, e.profile)])
        else (stack + [e], [Sent(LossTransient, Top(stack).profile)] + Grants(e))
      case (Permanent, Permanent) =>
        (stack[..|stack| - 1] + [e], [Sent(Loss, Top(stack).profile)] + Grants(e))
      case (_, _) => (stack, [])
  }

  function ReleasedBy(stack: seq<Entry>, p: Profile): (seq<Entry>, seq<Note>) {
    var k := IndexOf(stack, p);
    if k < 0 then (stack, [])
    else (Without(stack, k),
          if k == |stack| - 1 && k > 0 && stack[k].control == Transient
          then [Sent(Regained, stack[k - 1].profile)] else [])
  }

  function Handled(size: nat, stack: seq<Entry>, e: Event): (seq<Entry>, seq<Note>) {
    match e
    case Request(p, t) => Requested(size, stack, Entry(p, t))
    case Release(p) =>
      var (stack', notes) := ReleasedBy(stack, p);
      (stack', [Released(p)] + notes)
  }

  // ------------------------------------------------------------------------------------------
  // Who has the audio path

  /** The profile was granted the path after the last time it lost it or gave it back. */
  predicate Holds(log: seq<Note>, p: Profile)
    decreases |log|
  {
    if log == [] then false
    else match log[|log| - 1]
      case Sent(status, q) =>
        if q == p then status in {Gain, GainTransient, Regained} else Holds(log[..|log| - 1], p)
      case Released(q) => q != p && Holds(log[..|log| - 1], p)
  }

  /** Nobody, a permanent holder, a transient one, or a transient one above a permanent one. */
  ghost predicate Shape(size: nat, stack: seq<Entry>) {
    && |stack| <= size && |stack| <= 2
    && (forall i :: 0 <= i < |stack| ==> stack[i].profile != PROFILE_ID_MAX)
    && (|stack| == 2 ==> stack[0].control == Permanent && stack[1].control == Transient
                         && stack[0].profile != stack[1].profile)
  }

  predicate TopHas(stack: seq<Entry>, p: Profile) {
    stack != [] && Top(stack).profile == p && Top(stack).control != Default
  }

  /** Exactly the profile on top has the path, unless its request was of neither kind. */
  ghost predicate TopHolds(stack: seq<Entry>, log: seq<Note>) {
    forall p: Profile {:trigger Holds(log, p)} :: Holds(log, p) <==> TopHas(stack, p)
  }

  /** Whether `p` has the path after `notes` if `held` says whether it had it before. */
  function After(held: bool, notes: seq<Note>, p: Profile): bool
    decreases |notes|
  {
    if notes == [] then held else After(Told(held, notes[0], p), notes[1..], p)
  }

  function Told(held: bool, n: Note, p: Profile): bool {
    if n.profile == p then n.Sent? && n.status in {Gain, GainTransient, Regained} else held
  }

  lemma AfterFew(held: bool, a: Note, b: Note, p: Profile)
    ensures After(held, [a], p) == Told(held, a, p)
    ensures After(held, [a, b], p) == Told(Told(held, a, p), b, p)
  {
    assert [a, b][1..] == [b];
    assert After(held, [a, b], p) == After(Told(held, a, p), [b], p);
    assert After(Told(held, a, p), [b], p) == Told(Told(held, a, p), b, p);
  }

  lemma {:induction false} HoldsAfter(log: seq<Note>, notes: seq<Note>, p: Profile)
    ensures Holds(log + notes, p) == After(Holds(log, p), notes, p)
    decreases |notes|
  {
    if notes == [] {
      assert log + notes == log;
    } else {
      assert (log + [notes[0]])[..|log|] == log;
      assert log + notes == (log + [notes[0]]) + notes[1..];
      HoldsAfter(log + [notes[0]], notes[1..], p);
    }
  }

  lemma HandledKeepsShape(size: nat, stack: seq<Entry>, e: Event)
    requires size > 0 && Shape(size, stack) && e.profile != PROFILE_ID_MAX
    ensures Shape(size, Handled(size, stack, e).0)
  {}

  lemma HandledKeepsTop(size: nat, stack: seq<Entry>, log: seq<Note>, e: Event)
    requires size > 0 && Shape(size, stack) && TopHolds(stack, log) && e.profile != PROFILE_ID_MAX
    ensures TopHolds(Handled(size, stack, e).0, log + Handled(size, stack, e).1)
  {
    var (stack', notes) := Handled(size, stack, e);
    forall p: Profile ensures Holds(log + notes, p) <==> TopHas(stack', p) {
      HoldsAfter(log, notes, p);
      assert Holds(log, p) <==> TopHas(stack, p);
      hide Holds, TopHolds;
      HandledMovesTop(size, stack, e, p);
    }
  }

  lemma HandledMovesTop(size: nat, stack: seq<Entry>, e: Event, p: Profile)
    requires Shape(size, stack)
    ensures After(TopHas(stack, p), Handled(size, stack, e).1, p) <==> TopHas(Handled(size, stack, e).0, p)
  {
    var notes := Handled(size, stack, e).1;
    assert |notes| <= 2;
    if |notes| == 1 {
      assert notes == [notes[0]];
      AfterFew(TopHas(stack, p), notes[0], notes[0], p);
    } else if |notes| == 2 {
      assert notes == [notes[0], notes[1]];
      AfterFew(TopHas(stack, p), notes[0], notes[1], p);
    }
  }

  /** The stack and the log that a run of events leads to. */
  function Run(size: nat, events: seq<Event>): (seq<Entry>, seq<Note>) {
    if events == [] then ([], [])
    else
      var (stack, log) := Run(size, events[..|events| - 1]);
      var (stack', notes) := Handled(size, stack, events[|events| - 1]);
      (stack', log + notes)
  }

  /** In every run the stack keeps its shape, and exactly its top has the path. */
  lemma {:induction false} RunsKeepFocus(size: nat, events: seq<Event>)
    requires size > 0 && forall e :: e in events ==> e.profile != PROFILE_ID_MAX
    ensures Shape(size, Run(size, events).0) && TopHolds(Run(size, events).0, Run(size, events).1)
    decreases |events|
  {
    if events != [] {
      var before, e := events[..|events| - 1], events[|events| - 1];
      RunsKeepFocus(size, before);
      HandledKeepsShape(size, Run(size, before).0, e);
      HandledKeepsTop(size, Run(size, before).0, Run(size, before).1, e);
    }
  }

  /**
    Every request for one of the two kinds is answered, with a grant exactly if its profile is on top
    then; and who is displaced is told first, for good or for the time being.
   */
  lemma RequestIsAnswered(size: nat, stack: seq<Entry>, p: Profile, request: RequestType)
    requires Shape(size, stack) && request != Default && (stack != [] ==> Top(stack).control != Default)
    ensures var (stack', notes) := Handled(size, stack, Request(p, request));
            && notes != [] && notes[|notes| - 1].Sent? && notes[|notes| - 1].profile == p
            && (notes[|notes| - 1].status in {Gain, GainTransient} <==> TopHas(stack', p))
            && (stack != [] && Top(stack).profile != p && TopHas(stack', p) ==>
                  notes[0] == Sent(if Top(stack) in stack' then LossTransient else Loss, Top(stack).profile))
            && (stack != [] && Top(stack).profile != p && !TopHas(stack', p) ==> stack' == stack && |notes| == 1)
  {
    var (stack', notes) := Handled(size, stack, Request(p, request));
    if stack != [] && Top(stack).profile != p && Top(stack).control == Permanent {
      if request == Transient && |stack| < size {
        assert Top(stack) == stack'[|stack| - 1];
      }
    }
  }

  /** The first request is granted, and a holder that asks again is granted what it has. */
  lemma RequestIsGranted(size: nat, stack: seq<Entry>, p: Profile, request: RequestType)
    requires stack == [] || stack[|stack| - 1].profile == p
    ensures var (stack', notes) := Handled(size, stack, Request(p, request));
            && stack' == (if stack == [] then [Entry(p, request)] else stack)
            && var control := stack'[|stack'| - 1].control;
            && (control == Permanent ==> notes == [Sent(Gain, p)])
            && (control == Transient ==> notes == [Sent(GainTransient, p)])
            && (control == Default ==> notes == [])
  {}

  /**
    A transient request goes on top of a permanent holder, who stays below it and is told that the
    path is lost for a while; if the array is full it is denied for good.
   */
  lemma TransientGoesOnTop(size: nat, stack: seq<Entry>, p: Profile, holder: Profile)
    requires stack != [] && stack[|stack| - 1] == Entry(holder, Permanent) && p != holder
    ensures var (stack', notes) := Handled(size, stack, Request(p, Transient));
            if |stack| < size then
              && |stack'| == |stack| + 1 && stack'[..|stack|] == stack && stack'[|stack|] == Entry(p, Transient)
              && notes == [Sent(LossTransient, holder), Sent(GainTransient, p)]
            else
              stack' == stack && notes == [Sent(Loss, p)]
  {}

  /** A permanent request takes the place of a permanent holder, who has lost the path for good. */
  lemma PermanentTakesOver(size: nat, stack: seq<Entry>, p: Profile, holder: Profile)
    requires stack != [] && stack[|stack| - 1] == Entry(holder, Permanent) && p != holder
    ensures var (stack', notes) := Handled(size, stack, Request(p, Permanent));
            && |stack'| == |stack| && stack'[..|stack| - 1] == stack[..|stack| - 1]
            && stack'[|stack| - 1] == Entry(p, Permanent)
            && notes == [Sent(Loss, holder), Sent(Gain, p)]
  {}

  /** Nobody else displaces a transient holder; requests of neither kind change nothing. */
  lemma RequestIsDenied(size: nat, stack: seq<Entry>, p: Profile, request: RequestType)
    requires stack != [] && stack[|stack| - 1].profile != p
    ensures var (stack', notes) := Handled(size, stack, Request(p, request));
            var control := stack[|stack| - 1].control;
            && (control == Transient ==> stack' == stack && notes == [Sent(LossTransient, p)])
            && (control == Default || (control == Permanent && request == Default) ==> stack' == stack && notes == [])
  {}

  lemma RunNext(size: nat, events: seq<Event>, e: Event)
    ensures var (stack, log) := Run(size, events);
            Run(size, events + [e]) == (Handled(size, stack, e).0, log + Handled(size, stack, e).1)
  {
    assert (events + [e])[..|events|] == events;
  }

  /**
    After any run: a transient request that is granted over a permanent holder, and its release, leave
    the stack as it was, and the holder is told at the end that it has the path again.
   */
  lemma TransientComesAndGoes(size: nat, events: seq<Event>, p: Profile, holder: Profile)
    requires size > 1 && p != PROFILE_ID_MAX && holder != p
    requires (forall e :: e in events ==> e.profile != PROFILE_ID_MAX)
    requires Run(size, events).0 == [Entry(holder, Permanent)]
    ensures var (stack, log) := Run(size, events);
            Run(size, events + [Request(p, Transient)] + [Release(p)])
            == (stack, log + [Sent(LossTransient, holder), Sent(GainTransient, p)]
                           + [Released(p), Sent(Regained, holder)])
  {
    RunsKeepFocus(size, events);
    var (stack, log) := Run(size, events);
    RunNext(size, events, Request(p, Transient));
    RunNext(size, events + [Request(p, Transient)], Release(p));
    TransientGoesOnTop(size, stack, p, holder);
    var above := [Entry(holder, Permanent), Entry(p, Transient)];
    assert Handled(size, stack, Request(p, Transient)).0 == above;
    assert above[..1] == stack && IndexOf(above, p) == 1 && Without(above, 1) == stack;
    var middle := log + [Sent(LossTransient, holder), Sent(GainTransient, p)];
    assert [Released(p)] + [Sent(Regained, holder)] == [Released(p), Sent(Regained, holder)];
    assert Handled(size, above, Release(p)) == (stack, [Released(p), Sent(Regained, holder)]);
    assert Run(size, events + [Request(p, Transient)]) == (above, middle);
  }

  /** A release takes exactly that profile out; a permanent holder below a transient one regains the path. */
  lemma ReleaseLetsGo(size: nat, stack: seq<Entry>, p: Profile)
    requires Shape(size, stack)
    ensures var (stack', notes) := Handled(size, stack, Release(p));
            && (forall e :: e in stack' <==> e in stack && e.profile != p)
            && notes == [Released(p)]
                        + if |stack| == 2 && stack[1].profile == p then [Sent(Regained, stack[0].profile)] else []
  {
    var k := IndexOf(stack, p);
    if k >= 0 {
      WithoutAt(stack, k);
      assert forall e :: e in stack <==> exists i :: 0 <= i < |stack| && stack[i] == e;
    }
  }

  // ------------------------------------------------------------------------------------------
  // The stack as an array

  class AudioManager {
    /** `audio_control_stack`, of `MAX_PROFILE_ENTRIES` entries */
    const entries: array<Entry>
    /** The messages that were sent, and the releases that were received. */
    var log: seq<Note>
    ghost var stack: seq<Entry>

    /** The entries in use come first, and there are no others. */
    ghost predicate Valid()
      reads this, entries
    {
      && 0 < entries.Length && Shape(entries.Length, stack)
      && (forall i :: 0 <= i < entries.Length ==> entries[i] == if i < |stack| then stack[i] else UNUSED)
    }

    constructor (size: nat)
      requires size > 0
      ensures Valid() && fresh(entries) && entries.Length == size && stack == [] && log == []
    {
      entries := new Entry[size](i => UNUSED);
      stack, log := [], [];
    }

    method GetTopIndex() returns (top: int)
      requires Valid()
      ensures top == |stack| - 1
    {
      top := entries.Length - 1;
      while top >= 0
        invariant |stack| - 1 <= top < entries.Length
      {
        if entries[top].profile != PROFILE_ID_MAX {
          break;
        }
        top := top - 1;
      }
    }

    method GetIndex(p: Profile) returns (index: int)
      requires Valid() && p != PROFILE_ID_MAX
      ensures index == IndexOf(stack, p)
    {
      index := entries.Length - 1;
      while index >= 0
        invariant -1 <= index < entries.Length
        invariant forall i :: index < i < |stack| ==> stack[i].profile != p
      {
        if entries[index].profile == p {
          return;
        }
        index := index - 1;
      }
    }

    /** Puts an entry on top, unless all entries are in use. */
    method AddNewNode(e: Entry)
      requires Valid() && e.profile != PROFILE_ID_MAX
      requires |stack| < entries.Length ==> Shape(entries.Length, stack + [e])
      modifies this`stack, entries
      ensures Valid() && stack == if old(|stack|) < entries.Length then old(stack) + [e] else old(stack)
    {
      var index := GetTopIndex();
      if index == entries.Length - 1 {
        return;
      }
      if index < 0 {
        index := 0;
      } else {
        index := index + 1;
      }
      entries[index] := e;
      stack := stack + [e];
    }

    /** Takes an entry out and moves those above it down. */
    method RemoveNode(index: nat)
      requires Valid() && index < |stack|
      modifies this`stack, entries
      ensures Valid() && stack == Without(old(stack), index)
    {
      var i := index;
      while i < entries.Length - 1
        invariant index <= i <= entries.Length - 1 && stack == old(stack)
        invariant forall j :: 0 <= j < entries.Length ==>
                    entries[j] == old(entries[if index <= j < i then j + 1 else j])
      {
        entries[i] := entries[i + 1];
        i := i + 1;
      }
      entries[entries.Length - 1] := UNUSED;
      stack := Without(stack, index);
    }

    method SendControlStatusMessage(status: Status, p: Profile)
      modifies this`log
      ensures log == old(log) + [Sent(status, p)]
    {
      log := log + [Sent(status, p)];
    }

    /** The request of a profile that is not on top of the stack. */
    method RequestAnother(top: nat, p: Profile, request: RequestType)
      requires Valid() && p != PROFILE_ID_MAX
      requires top == |stack| - 1 && Top(stack).profile != p
      modifies this, entries
      ensures Valid()
      ensures stack == Handled(entries.Length, old(stack), Request(p, request)).0
      ensures log == old(log) + Handled(entries.Length, old(stack), Request(p, request)).1
    {
      HandledKeepsShape(entries.Length, stack, Request(p, request));
      match entries[top].control {
        case Transient =>
          SendControlStatusMessage(LossTransient, p);
        case Permanent =>
          if request == Transient {
            if top == entries.Length - 1 {
              SendControlStatusMessage(Loss, p);
              return;
            }
            SendControlStatusMessage(LossTransient, entries[top].profile);
            AddNewNode(Entry(p, request));
            SendControlStatusMessage(GainTransient, entries[top + 1].profile);
          } else if request == Permanent {
            SendControlStatusMessage(Loss, entries[top].profile);
            RemoveNode(top);
            AddNewNode(Entry(p, request));
            SendControlStatusMessage(Gain, entries[top].profile);
          }
        case Default =>
      }
    }

    /** `ProcessEvent` for `BT_AM_REQUEST_CONTROL` */
    method RequestControl(p: Profile, request: RequestType)
      requires Valid() && p != PROFILE_ID_MAX
      modifies this, entries
      ensures Valid()
      ensures stack == Handled(entries.Length, old(stack), Request(p, request)).0
      ensures log == old(log) + Handled(entries.Length, old(stack), Request(p, request)).1
    {
      HandledKeepsShape(entries.Length, stack, Request(p, request));
      var top := GetTopIndex();
      if top < 0 {
        AddNewNode(Entry(p, request));
        if request == Permanent {
          SendControlStatusMessage(Gain, p);
        } else if request == Transient {
          SendControlStatusMessage(GainTransient, p);
        }
        return;
      }
      if entries[top].profile == p {
        if entries[top].control == Transient {
          SendControlStatusMessage(GainTransient, p);
        }
        if entries[top].control == Permanent {
          SendControlStatusMessage(Gain, p);
        }
        return;
      }
      RequestAnother(top, p, request);
    }

    /** `ProcessEvent` for `BT_AM_RELEASE_CONTROL` */
    method ReleaseControl(p: Profile)
      requires Valid() && p != PROFILE_ID_MAX
      modifies this, entries
      ensures Valid()
      ensures stack == Handled(entries.Length, old(stack), Release(p)).0
      ensures log == old(log) + Handled(entries.Length, old(stack), Release(p)).1
    {
      log := log + [Released(p)];
      var profileIndex := GetIndex(p);
      var top := GetTopIndex();
      if profileIndex < 0 {
        return;
      }
      if profileIndex == top && entries[top].control == Transient && top != 0 {
        SendControlStatusMessage(Regained, entries[top - 1].profile);
      }
      RemoveNode(profileIndex);
    }
  }
}

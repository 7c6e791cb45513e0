/**
 * The carousel component of src/carousel.rs: a signed current index, the
 * animation progress the component resets, and the animation target the two
 * buttons set. The progress handler turns a transition that reaches an end
 * of the range into exactly one index step and snaps progress back to the
 * neutral point.
 *
 * The pure functions `Step` and `Run` describe the component's reaction to a
 * sequence of events; the class `Component` performs the same reactions in
 * place and its methods are proved to agree with `Step`.
 */
module Carousel {
  import opened Wraparound

  /** Progress at rest: no slide is displaced. */
  const Neutral: real := 0.5

  /** The target the left-arrow button animates towards. */
  const LeftTarget: real := 1.0

  /** The target the right-arrow button animates towards. */
  const RightTarget: real := 0.0

  /** What the component reacts to: a progress value delivered by the animation, or a button press. */
  datatype Event =
    | Observed(value: real)
    | LeftPressed
    | RightPressed

  /** The mutable part of the component. */
  datatype State = State(currentIndex: int, progress: real, target: real)

  /** A freshly constructed component: index 0, progress and target at rest. */
  const Initial: State := State(0, Neutral, Neutral)

  /** The animation's `jump_to`: progress is set at once and any pending transition is dropped. */
  function JumpTo(s: State, v: real): (r: State)
  {
    s.(progress := v, target := v)
  }

  /**
   * The reaction to one event. An observed value is tested against 1.0 and
   * then against 0.0, in that order; reaching 1.0 retreats the index and
   * reaching 0.0 advances it. A button press only sets the animation target.
   */
  function Step(s: State, e: Event): (r: State)
  {
    match e
    case LeftPressed => s.(target := LeftTarget)
    case RightPressed => s.(target := RightTarget)
    case Observed(v) =>
      var s1 := if v == 1.0 then JumpTo(s, Neutral).(currentIndex := s.currentIndex - 1) else s;
      if v == 0.0 then JumpTo(s1, Neutral).(currentIndex := s1.currentIndex + 1) else s1
  }

  /** The state reached by reacting to `events` in order. */
  function Run(s: State, events: seq<Event>): (r: State)
    decreases |events|
  {
    if events == [] then s else Run(Step(s, events[0]), events[1..])
  }

  /** How many events in `events` deliver exactly the progress value `v`. */
  function Hits(events: seq<Event>, v: real): (n: nat)
  {
    if events == [] then 0
    else (if events[0] == Observed(v) then 1 else 0) + Hits(events[1..], v)
  }

  /** True if `e` delivers a progress value at an end of the range. */
  predicate IsBoundary(e: Event)
  {
    e == Observed(0.0) || e == Observed(1.0)
  }

  /** True if `e` is neither a press nor a progress value at an end of the range. */
  predicate IsQuiet(e: Event)
  {
    e.Observed? && e.value != 0.0 && e.value != 1.0
  }

  /**
   * Over any sequence of events the index moves by the number of times
   * progress reached 0.0 minus the number of times it reached 1.0. Presses
   * and intermediate progress values never move it.
   */
  lemma {:induction false} NetIndexChange(s: State, events: seq<Event>)
    ensures Run(s, events).currentIndex == s.currentIndex + Hits(events, 0.0) - Hits(events, 1.0)
    decreases |events|
  {
    if events != [] {
      NetIndexChange(Step(s, events[0]), events[1..]);
    }
  }

  /**
   * Starting from a fresh component, the slide shown in slot `offset` after
   * any sequence of events, both its resolved index and the slide stored
   * there, is determined by the net count of completed transitions alone,
   * taken around the circle of slides.
   */
  lemma SlideAfterEvents<T>(slides: seq<T>, events: seq<Event>, offset: int)
    requires |slides| >= 1
    ensures (Run(Initial, events).currentIndex + offset) % |slides|
            == (Hits(events, 0.0) - Hits(events, 1.0) + offset) % |slides|
    ensures slides[(Run(Initial, events).currentIndex + offset) % |slides|]
            == slides[(Hits(events, 0.0) - Hits(events, 1.0) + offset) % |slides|]
  {
    NetIndexChange(Initial, events);
  }

  /**
   * Values strictly between the ends of the range, including the neutral
   * value the handler itself jumps to, change nothing however many arrive.
   * So the reset after a boundary hit cannot itself trigger another step.
   */
  lemma {:induction false} QuietEventsChangeNothing(s: State, events: seq<Event>)
    requires forall k :: 0 <= k < |events| ==> IsQuiet(events[k])
    ensures Run(s, events) == s
  {
    if events != [] {
      assert IsQuiet(events[0]);
      QuietEventsChangeNothing(s, events[1..]);
    }
  }

  /**
   * After any sequence of events, progress is back at rest if progress
   * reached an end of the range at least once; otherwise it is where it
   * started. A boundary value is thus never left standing: the handler's
   * reset to the neutral value follows every one of them.
   */
  lemma {:induction false} ProgressAfterEvents(s: State, events: seq<Event>)
    ensures Run(s, events).progress
            == if exists k :: 0 <= k < |events| && IsBoundary(events[k]) then Neutral else s.progress
    decreases |events|
  {
    if events != [] {
      var s' := Step(s, events[0]);
      var rest := events[1..];
      ProgressAfterEvents(s', rest);
      if exists k :: 0 <= k < |rest| && IsBoundary(rest[k]) {
        var k :| 0 <= k < |rest| && IsBoundary(rest[k]);
        assert events[k + 1] == rest[k];
      } else if IsBoundary(events[0]) {
        assert s'.progress == Neutral;
      } else {
        assert s'.progress == s.progress;
        forall k | 0 <= k < |events|
          ensures !IsBoundary(events[k])
        {
          if k > 0 {
            assert events[k] == rest[k - 1];
          }
        }
      }
    }
  }

  /**
   * One boundary value followed by any number of presses and quiet values
   * moves the index by exactly one step. Presses never move the index;
   * only boundary observations do.
   */
  lemma OneStepPerCompletion(s: State, v: real, rest: seq<Event>)
    requires v == 0.0 || v == 1.0
    requires forall k :: 0 <= k < |rest| ==> rest[k] != Observed(0.0) && rest[k] != Observed(1.0)
    ensures Run(s, [Observed(v)] + rest).currentIndex == s.currentIndex + (if v == 0.0 then 1 else -1)
  {
    var events := [Observed(v)] + rest;
    assert events[1..] == rest;
    NetIndexChange(s, events);
    NoHits(rest, 0.0);
    NoHits(rest, 1.0);
  }

  /** A sequence that never delivers `v` has no hits of `v`. */
  lemma {:induction false} NoHits(events: seq<Event>, v: real)
    requires forall k :: 0 <= k < |events| ==> events[k] != Observed(v)
    ensures Hits(events, v) == 0
  {
    if events != [] {
      assert events[0] != Observed(v);
      NoHits(events[1..], v);
    }
  }

  /** One rendered slot: its relative position, the slide index it resolved to, and that slide. */
  datatype Slot<T> = Slot(offset: int, index: nat, content: T)

  /**
   * The carousel component. `slides` never changes after construction;
   * `currentIndex`, `progress` and `target` are updated in place by the
   * progress handler and the two buttons.
   */
  class Component<T> {
    const slides: seq<T>
    var currentIndex: int
    var progress: real
    var target: real

    /** The component's mutable state as a value. */
    function Snapshot(): (s: State)
      reads this
    {
      State(currentIndex, progress, target)
    }

    /** `Component::new`: keeps the slides; index 0, progress and target at rest. */
    constructor (slides: seq<T>)
      ensures this.slides == slides
      ensures Snapshot() == Initial
    {
      this.slides := slides;
      currentIndex := 0;
      progress := Neutral;
      target := Neutral;
    }

    /**
     * The progress handler: reacts to a delivered progress value `v`.
     * Exactly 1.0 jumps back to rest and decrements the index; exactly 0.0
     * jumps back to rest and increments it; anything else changes nothing.
     */
    method Observe(v: real)
      modifies this
      ensures Snapshot() == Step(old(Snapshot()), Observed(v))
      ensures v == 1.0 ==> currentIndex == old(currentIndex) - 1 && progress == Neutral && target == Neutral
      ensures v == 0.0 ==> currentIndex == old(currentIndex) + 1 && progress == Neutral && target == Neutral
      ensures v != 0.0 && v != 1.0 ==> Snapshot() == old(Snapshot())
    {
      if v == 1.0 {
        progress, target := Neutral, Neutral;
        currentIndex := currentIndex - 1;
      }
      if v == 0.0 {
        progress, target := Neutral, Neutral;
        currentIndex := currentIndex + 1;
      }
    }

    /** The left-arrow button: starts a transition towards 1.0 and touches nothing else. */
    method ClickLeft()
      modifies this`target
      ensures target == LeftTarget
      ensures Snapshot() == Step(old(Snapshot()), LeftPressed)
    {
      target := LeftTarget;
    }

    /** The right-arrow button: starts a transition towards 0.0 and touches nothing else. */
    method ClickRight()
      modifies this`target
      ensures target == RightTarget
      ensures Snapshot() == Step(old(Snapshot()), RightPressed)
    {
      target := RightTarget;
    }

    /**
     * `render_slide`: the slot at `offset` around `index` shows a slide that
     * exists (the lookup cannot fail) and is the one at the circular position
     * `index + offset`.
     */
    method RenderSlide(index: int, offset: int) returns (slot: Slot<T>)
      requires |slides| >= 1
      ensures slot.offset == offset
      ensures slot.index < |slides| && slot.content == slides[slot.index]
      ensures slot.index == (index + offset) % |slides|
    {
      var i := ResolveIndex(|slides|, index, offset);
      slot := Slot(offset, i, slides[i]);
    }

    /**
     * The five slots rendered around `index`, left to right. Each shows the
     * slide after the one its left neighbour shows, and they are five
     * different slides exactly when there are at least five slides.
     */
    method RenderWindow(index: int) returns (slots: seq<Slot<T>>)
      requires |slides| >= 1
      ensures |slots| == |SlotOffsets| == 5
      ensures forall k :: 0 <= k < |slots| ==>
        slots[k].offset == SlotOffsets[k] &&
        slots[k].index < |slides| && slots[k].content == slides[slots[k].index] &&
        slots[k].index == (index + SlotOffsets[k]) % |slides|
      ensures forall k :: 0 <= k < |slots| - 1 ==> slots[k + 1].index == (slots[k].index + 1) % |slides|
      ensures (forall k, m :: 0 <= k < m < |slots| ==> slots[k].index != slots[m].index) <==> |slides| >= 5
    {
      var s0 := RenderSlide(index, -2);
      var s1 := RenderSlide(index, -1);
      var s2 := RenderSlide(index, 0);
      var s3 := RenderSlide(index, 1);
      var s4 := RenderSlide(index, 2);
      slots := [s0, s1, s2, s3, s4];
      forall k | 0 <= k < |slots| - 1
        ensures slots[k + 1].index == (slots[k].index + 1) % |slides|
      {
        AdjacentSlots(index, |slides|, k);
      }
      DistinctSlotsIff(index, |slides|);
    }
  }
}

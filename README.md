# Carousel index and progress model

This project models the logic inside the carousel widget of
`src/carousel.rs` (a Bulma/dominator component written in Rust). The
widget shows five slides around a circular index. Two arrow buttons start an
animation, and a progress handler turns each completed animation into one
step of the index. Two parts are modelled:

- **Wraparound slot resolution** (`wraparound.dfy`, module `Wraparound`).
  `render_slide` adds the slide count to `current_index + offset` until the
  value is non-negative, then takes the remainder. `ResolveIndex` is that
  loop. It is proved to terminate and to return the Euclidean residue of
  `current_index + offset`, which always lies in `[0, len)`. So the
  `slides.get(index).unwrap()` that follows cannot panic. The lemmas about
  the five slot offsets `-2..2` show two things: neighbouring slots show
  consecutive slides, and the five slots are distinct exactly when there are
  at least five slides.
- **Progress-boundary state machine** (`carousel.dfy`, module `Carousel`).
  The class `Component` holds `currentIndex`, `progress` and the animation
  `target`. Its `Observe` method is the `for_each` handler: observing exactly
  `1.0` jumps progress back to `0.5` and decrements the index; observing
  exactly `0.0` jumps back and increments it; any other value changes nothing.
  `ClickLeft` and `ClickRight` only set the target, to `1.0` and `0.0`. This
  keeps the source's sign convention: the left arrow leads to a decrement.
  The pure function `Step` gives the same reactions on values, and `Run`
  folds it over a sequence of events. The lemmas about `Run` state the net
  index change, the return of progress to rest after every boundary value,
  the stability of the rest value, and that one completion gives one step.

Progress is an exact `real`, so the handler's equality tests against `1.0`
and `0.0` are modelled exactly. The `progress` field holds the value the
component itself gives the animation: the initial `0.5` and each
`jump_to(0.5)`. The values the animation produces while it runs come from
outside and arrive as `Observe`'s argument. `jump_to` is modelled as setting
both progress and target to the value, which cancels a transition in flight.

## Model

| member | source | states |
|---|---|---|
| `Wraparound.ResolveIndex` | src/carousel.rs:28-34 | For any signed index and offset and `len >= 1`, the add-`len`-while-negative loop terminates and the result lies in `[0, len)`, so the slide lookup cannot fail. The result equals `(current_index + offset) mod len` in the Euclidean sense, even for an index that has drifted far negative. |
| `Wraparound.AddLaps` | src/carousel.rs:30-32 | Adding any whole number of laps of `len` to a position does not change its residue. This is why each step of the loop keeps the slide the position resolves to. |
| `Wraparound.AdjacentSlots` | src/carousel.rs:88-94 | In the five-slot list, each slot's resolved index is its left neighbour's index plus one, modulo `len`. |
| `Wraparound.DistinctSlotsIff` | src/carousel.rs:88-94 | The five slots around any index resolve to pairwise different slides if and only if `len >= 5`. With fewer slides, two slots alias. |
| `Carousel.Component.RenderSlide` | src/carousel.rs:23-34 | The slot at `offset` around `index` keeps its offset. It resolves to an index inside the slide list, equal to `(index + offset) mod len`, and carries the slide stored there. |
| `Carousel.Component.RenderWindow` | src/carousel.rs:87-94 | Exactly five slots are produced, for offsets `-2, -1, 0, 1, 2` in that order. Each slot carries the slide at its circular position. Each index is the previous one plus one mod `len`. The slots are pairwise distinct if and only if there are at least five slides. |
| `Carousel.Component.constructor` | src/carousel.rs:15-21 | A new component keeps its slides and starts with index `0`, progress `0.5` and no pending transition. |
| `Carousel.Component.Observe` | src/carousel.rs:56-69 | Observing exactly `1.0` sets progress to `0.5` and decreases the index by exactly one. Observing exactly `0.0` sets progress to `0.5` and increases the index by exactly one. Any other value leaves the whole state unchanged. The new state is `Step` of the old one. |
| `Carousel.Component.ClickLeft` | src/carousel.rs:72-75 | The left-arrow button sets the animation target to `1.0` and changes neither index nor progress. |
| `Carousel.Component.ClickRight` | src/carousel.rs:101-104 | The right-arrow button sets the animation target to `0.0` and changes neither index nor progress. |
| `Carousel.NetIndexChange` | src/carousel.rs:56-69 | Over any sequence of observations and presses, the index changes by the number of `0.0` observations minus the number of `1.0` observations. |
| `Carousel.SlideAfterEvents` | src/carousel.rs:17-34 | Starting from a new component, the resolved index of any slot after any sequence of events, and the slide stored there, depend only on (`0.0` hits − `1.0` hits + offset) mod `len`. |
| `Carousel.QuietEventsChangeNothing` | src/carousel.rs:56-69 | Any number of observed values other than `0.0` and `1.0` leave the state unchanged. This includes the reset value `0.5`, so the handler's own jump cannot trigger another step. |
| `Carousel.ProgressAfterEvents` | src/carousel.rs:56-69 | From any state, after any sequence of events, progress is `0.5` if some event delivered exactly `0.0` or `1.0`, and otherwise it is unchanged. Every boundary value is followed by the handler's reset, so progress is never left at an end of the range by the component. |
| `Carousel.OneStepPerCompletion` | src/carousel.rs:56-69 | One boundary observation followed by any presses and non-boundary values moves the index by exactly one step: `+1` for `0.0`, `-1` for `1.0`. Presses never move the index; only boundary observations do. |

## Left out

- The animation engine `MutableAnimation` is left out. This covers its 500-unit duration, easing, interpolation in `animate_to` and signal delivery. It is a foreign, time-driven, floating-point library. Button presses only set a target, and progress values reach the handler as `Observe`'s argument.
- Carousel.Component.ClickLeft: does not model the animation moving progress towards the target, because that motion belongs to the engine left out above.
- The transform and mask-gradient values of each slot (`src/carousel.rs:35-45`) are left out. They are `f64` arithmetic through `Percentage::range_inclusive` plus CSS string formatting.
- The DOM and Bulma construction is left out: columns, buttons, icons, classes, z-index and `is-overlay`. It is presentation only.
- The reactive plumbing is left out (`Mutable`, signals, `for_each`, `children_signal_vec`, `Arc`, `clone!`). The model treats each delivered value as one sequential call.
- Carousel.OneStepPerCompletion: covers only the handler's side. That one completed transition is delivered as exactly one `1.0` or `0.0`, even after repeated presses, depends on the animation engine left out above.
- Carousel.ProgressAfterEvents: the `progress` field never holds the values the animation produces on its way to a target, so the model states only that the component's own writes return progress to `0.5`.
- `isize` overflow is not modelled. The index is an unbounded `int`.
- An empty slide list is excluded by `len >= 1` on `ResolveIndex`, `RenderSlide` and `RenderWindow`. With no slides the source loops forever for a negative position and otherwise panics on `% 0`. The constructor itself, like the source, accepts an empty list.

# Story carousel of the RetroLinkTree landing page

The page (`app/page.tsx`) is a "link-in-bio" carousel. It plays a fixed list of
stories: a welcome YouTube video, then five social-network cards. Each story
has a timed progress bar. The user can tap left/right zones or arrows, click
progress segments or dots, and pause or resume. The only logic on the page is
the controller inside the `RetroLinkTree` component. It has three state cells,
`currentStory`, `progress` and `isPaused`, and one 50 ms interval timer that
fills the bar and moves on when it is full. This project models that
controller and proves what its actions promise.

- `stories.dfy`, module `Stories`: the `Story` union (`youtube`, `video`,
  `social`), the shipped list, and the per-tick increment
  `100 / (duration / 50)`. The increment is an exact `real`.
- `carousel.dfy`, module `Carousel`: the controller as a pure state machine.
  `State` holds the three cells. `Next`, `Prev`, `Click`, `Toggle` and
  `TickStep` are the transitions. `Run` is a number of ticks with no input.
  The module also has the progress-bar widths and the arrow-button
  conditions, and the lemmas about all of them.
- `controller.dfy`, module `Controller`: class `RetroLinkTree` with the three
  cells as fields. It has one method per action and `Tick` for one firing of
  the interval. Each method's contract ties the new cells to the matching
  transition of `Carousel` and keeps the invariant `Valid()`.

Progress is an exact real and ticks are atomic steps. Four consequences of
the code are worth stating outright:

- **Progress bound.** The code tests `prev >= 100` before adding the
  increment, so progress can pass 100 by less than one increment. In exact
  arithmetic this happens exactly when a story's duration is not a multiple
  of 50 ms (`StoryOvershoots`); for a multiple of 50 ms the bar stops at
  exactly 100 (`StoryExactlyFull`). On that tick the width value of the
  active segment exceeds the finished segments' 100% (`BarOvershoot`), but
  each segment's container has `overflow-hidden` (app/page.tsx:234), so the
  bar is clipped and the strip still looks full. The invariant proved is
  `0 <= progress < 100 + increment`.
- **Auto-advance timing.** The tick that finds the bar full is the one that
  moves on, so in exact arithmetic a story lasts `ceil(duration / 50) + 1`
  ticks (`StoryLifetime`). For the 6000 ms welcome video the bar reaches
  exactly 100 at tick 120 (6000 ms) and story 1 appears at tick 121
  (6050 ms), not at 6000 ms (`ShippedFirstStory`). With the page's binary
  floating point the switch comes one tick later still (see "Left out").
- **Jump index.** `handleStoryClick` does not check its index. Its only
  callers pass indices of the story list, so `HandleStoryClick` requires a
  valid index.
- **Arrow asymmetry.** The right arrow is disabled on the last story, but the
  right tap zone and auto-advance wrap to the first story
  (`RightArrowDisabled`).

## Model

| member | source | states |
|---|---|---|
| `Stories.Increment` | app/page.tsx:171-172 | the increment is positive, and `duration / 50` ticks of it add up to exactly 100 |
| `Stories.Shipped` | app/page.tsx:63-121 | the shipped list is usable by the controller: six stories, the 6000 ms YouTube intro followed by five 5000 ms social cards, with pairwise distinct ids |
| `Carousel.InitialValid` | app/page.tsx:162-164 | the mount state (index 0, progress 0, playing) satisfies the invariant |
| `Carousel.Next` | app/page.tsx:191-199 | `nextStory` moves to `(index + 1) mod length`, so it wraps from the last story to 0; progress becomes 0; the paused flag is kept; the invariant is preserved |
| `Carousel.Prev` | app/page.tsx:201-206 | `prevStory` leaves the state unchanged exactly when the index is 0; otherwise it moves to index - 1 with progress 0; the paused flag is kept |
| `Carousel.Click` | app/page.tsx:208-211 | `handleStoryClick(i)` moves to story i with progress 0 and the paused flag kept; the invariant holds afterwards |
| `Carousel.Toggle` | app/page.tsx:213-214 | `togglePlayPause` flips the paused flag and keeps index and progress |
| `Carousel.ToggleTwice` | app/page.tsx:213-214 | toggling twice restores the original state |
| `Carousel.TickStep` | app/page.tsx:168-182 | a tick while paused changes nothing, never changes the paused flag, and preserves the invariant `0 <= index < length`, `0 <= progress < 100 + increment` |
| `Carousel.Run` | app/page.tsx:174-182 | any number of ticks keeps the invariant and the paused flag |
| `Carousel.NextNMoves` | app/page.tsx:191-199 | k presses of `nextStory` move k stories forward modulo the length and leave the bar empty |
| `Carousel.NextCycle` | app/page.tsx:191-199 | pressing `nextStory` once per story returns to the starting story with progress 0 and the paused flag unchanged |
| `Carousel.PrevUndoesNext` | app/page.tsx:191-206 | below the last story, `prevStory` after `nextStory` returns to the same story with the bar reset |
| `Carousel.NextUndoesPrev` | app/page.tsx:191-206 | above the first story, `nextStory` after `prevStory` returns to the same story with the bar reset |
| `Carousel.ClickAgreesWithNavigation` | app/page.tsx:191-211 | `nextStory` and a moving `prevStory` equal a click on the neighbouring story |
| `Carousel.TicksToFull` | app/page.tsx:172-176 | the number of ticks a story needs to fill its bar is `duration / 50` rounded up |
| `Carousel.FilledBelowFull` | app/page.tsx:172-180 | after k ticks from an empty bar the progress is below 100 exactly when k ticks last less than the story's duration |
| `Carousel.GrowingTick` | app/page.tsx:174-180 | a playing tick on a bar below 100 keeps the story and adds exactly that story's increment |
| `Carousel.FullTick` | app/page.tsx:174-178 | a playing tick on a bar at or above 100 is exactly `nextStory`: the next story (wrapping) with an empty bar |
| `Carousel.StoryFills` | app/page.tsx:174-181 | from an empty, playing bar, each tick until the bar is full adds one increment and stays on the same story |
| `Carousel.StoryLifetime` | app/page.tsx:174-181 | the bar is full after `TicksToFull` ticks, and the next tick resets it and advances exactly as `nextStory` does |
| `Carousel.StoryOvershoots` | app/page.tsx:174-180 | when the story's duration is not a multiple of 50 ms, the bar is strictly above 100 on the tick before the advance |
| `Carousel.StoryExactlyFull` | app/page.tsx:174-180 | in exact arithmetic, when the story's duration is a multiple of 50 ms, the bar is exactly 100 on the tick before the advance (the converse of `StoryOvershoots`) |
| `Carousel.PausedFreezes` | app/page.tsx:168-169 | while paused, no number of ticks changes index or progress |
| `Carousel.ShippedFirstStory` | app/page.tsx:63-70 | in exact arithmetic, on the shipped list, the intro's bar is exactly 100 after 120 ticks (6000 ms), and tick 121 shows story 1 with an empty bar |
| `Carousel.BarTotal` | app/page.tsx:240 | the widths sum to `100 * index + progress`: one full segment per finished story plus the live progress |
| `Carousel.BarNonIncreasing` | app/page.tsx:240 | with progress in [0, 100], widths are in [0, 100] and never grow left to right (filled, active, upcoming) |
| `Carousel.BarOvershoot` | app/page.tsx:240 | while the bar is above 100, the width value of the active segment exceeds that of every finished segment (the container clips what is drawn) |
| `Carousel.LeftArrowDisabled` | app/page.tsx:319-320 | the left arrow is disabled exactly when `prevStory` would do nothing |
| `Carousel.RightArrowDisabled` | app/page.tsx:328-329 | the right arrow is disabled exactly when `nextStory` would not move one story forward; in that case `nextStory` (the right tap zone, line 251) wraps to 0 |
| `Controller.RetroLinkTree.constructor` | app/page.tsx:161-164 | mounting gives index 0, progress 0, playing, with the invariant established |
| `Controller.RetroLinkTree.NextStory` | app/page.tsx:191-199 | the cells become `Next` of the old cells: index `(old + 1) mod length`, progress 0, paused kept |
| `Controller.RetroLinkTree.PrevStory` | app/page.tsx:201-206 | at index 0 the object is unchanged; otherwise index - 1 and progress 0, paused kept |
| `Controller.RetroLinkTree.HandleStoryClick` | app/page.tsx:208-211 | index becomes the clicked one, progress 0, paused kept |
| `Controller.RetroLinkTree.TogglePlayPause` | app/page.tsx:213-214 | the paused flag is flipped; index and progress are untouched |
| `Controller.RetroLinkTree.Tick` | app/page.tsx:168-182 | paused: unchanged; progress >= 100: advances as `nextStory` does with progress 0; otherwise progress grows by the current story's increment; the invariant is kept |
| `Controller.WrapFromLastStory` | app/page.tsx:250-251 | clicking the last dot and then tapping the right zone lands on story 0 with progress 0 and keeps the paused flag |

## Left out

- Rendering: the JSX markup, Tailwind classes, the global style block, and
  the dot indicators' highlight classes (app/page.tsx:226-402). They are
  presentational only. The progress-bar width expression and the arrow
  `disabled` conditions are modelled.
- `YouTubeEmbed` (app/page.tsx:124-159). Its iframe URL, `postMessage` and the
  two delayed play nudges are foreign browser and YouTube calls with no
  result the controller sees.
- `SocialIcon` and `next/image` (app/page.tsx:9-31). This is a static URL
  lookup that feeds an external image component.
- The `videoRef.play()` / `pause()` branch of `togglePlayPause`
  (app/page.tsx:215-221). `videoRef` is never attached to an element, and
  these are foreign media calls.
- The outbound link's `stopPropagation` (app/page.tsx:299). This is browser
  event routing, not controller state.
- The interval's lifecycle: `setInterval`, `clearInterval`, and re-arming
  the effect when the index or paused flag changes (app/page.tsx:174-189).
  The timer is the explicit `Tick` method, which does nothing while paused.
  This is what the effect's early return gives.
- React's update batching and strict-mode double invocation. Also left out:
  `nextStory` being called inside the `setProgress` updater
  (app/page.tsx:177). Each tick is one atomic step over the current cells.
- Binary floating-point rounding of the increment. Progress is an exact
  real. In the page's IEEE-754 doubles, `100 / (6000 / 50)` is
  0.8333333333333334 and 120 additions of it give 99.99999999999987, which
  is below 100. So the welcome video's bar briefly shows about 100.83% at
  tick 121, and the switch to story 1 happens at tick 122 (6100 ms) instead
  of the exact-arithmetic tick 121. The same rounding can make a story whose
  duration is a multiple of 50 ms overshoot 100, which exact arithmetic
  rules out.
- `app/layout.tsx`: static metadata, fonts and the root layout wrapper. It
  holds no logic.

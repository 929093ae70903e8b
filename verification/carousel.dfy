/** The story carousel as a pure state machine: the three cells of the
    controller, the effect of each action and of one timer tick on them,
    the progress-bar widths and the arrow buttons derived from them. */
module Carousel {
  import opened Stories

  /** The controller's cells: the index of the story on screen, the
      percentage of it already shown, and whether the timer is paused. */
  datatype State = State(current: int, progress: real, paused: bool)

  /** The state at page mount: first story, empty bar, playing. */
  const Initial: State := State(0, 0.0, false)

  /** What every action and tick keeps: the index names a story, and the
      progress is non-negative and at most one increment past 100 (it may
      overshoot 100 by less than one tick before the advancing tick). */
  predicate Inv(stories: seq<Story>, s: State)
  {
    WellFormed(stories) && 0 <= s.current < |stories| &&
    0.0 <= s.progress < 100.0 + Increment(stories[s.current].duration)
  }

  lemma InitialValid(stories: seq<Story>)
    requires WellFormed(stories)
    ensures Inv(stories, Initial) && !Initial.paused
  {
  }

  /** `nextStory`: advance, wrapping from the last story to the first. */
  function Next(stories: seq<Story>, s: State): (r: State)
    requires 0 <= s.current < |stories|
    ensures r.current == (s.current + 1) % |stories|
    ensures r.progress == 0.0 && r.paused == s.paused
    ensures Inv(stories, s) ==> Inv(stories, r)
  {
    if s.current < |stories| - 1 then s.(current := s.current + 1, progress := 0.0)
    else s.(current := 0, progress := 0.0)
  }

  /** `prevStory`: go back one story; at the first story nothing happens. */
  function Prev(s: State): (r: State)
    requires 0 <= s.current
    ensures r == s <==> s.current == 0
    ensures r != s ==> r.current == s.current - 1 && r.progress == 0.0
    ensures 0 <= r.current <= s.current && r.paused == s.paused
  {
    if s.current > 0 then s.(current := s.current - 1, progress := 0.0) else s
  }

  /** `handleStoryClick(index)`: jump to the given story. */
  function Click(stories: seq<Story>, s: State, index: int): (r: State)
    requires 0 <= index < |stories|
    ensures r.current == index && r.progress == 0.0 && r.paused == s.paused
    ensures WellFormed(stories) ==> Inv(stories, r)
  {
    s.(current := index, progress := 0.0)
  }

  /** `togglePlayPause`: flip the paused flag and nothing else. */
  function Toggle(s: State): (r: State)
    ensures r.paused != s.paused
    ensures r.current == s.current && r.progress == s.progress
  {
    s.(paused := !s.paused)
  }

  /** One 50 ms timer tick. A paused carousel has no timer; a full bar
      advances to the next story; otherwise the bar grows by the current
      story's increment. */
  function TickStep(stories: seq<Story>, s: State): (r: State)
    requires WellFormed(stories) && 0 <= s.current < |stories|
    ensures s.paused ==> r == s
    ensures r.paused == s.paused
    ensures Inv(stories, s) ==> Inv(stories, r)
  {
    if s.paused then s
    else if s.progress >= 100.0 then Next(stories, s)
    else s.(progress := s.progress + Increment(stories[s.current].duration))
  }

  /** The state after `k` ticks with no user input. */
  function Run(stories: seq<Story>, s: State, k: nat): (r: State)
    requires Inv(stories, s)
    ensures Inv(stories, r) && r.paused == s.paused
  {
    if k == 0 then s else TickStep(stories, Run(stories, s, k - 1))
  }

  /** The state after pressing `nextStory` `k` times. */
  function NextN(stories: seq<Story>, s: State, k: nat): (r: State)
    requires 0 <= s.current < |stories|
    ensures 0 <= r.current < |stories| && r.paused == s.paused
  {
    if k == 0 then s else Next(stories, NextN(stories, s, k - 1))
  }

  // ---------------------------------------------------------------------------
  // Navigation

  /** `k` presses of `nextStory` move `k` stories forward modulo the list length,
      and any press leaves the bar empty. */
  lemma {:induction false} NextNMoves(stories: seq<Story>, s: State, k: nat)
    requires 0 <= s.current < |stories|
    ensures NextN(stories, s, k).current == (s.current + k) % |stories|
    ensures k > 0 ==> NextN(stories, s, k).progress == 0.0
  {
    if k > 0 {
      NextNMoves(stories, s, k - 1);
      var n := |stories|;
      var c := NextN(stories, s, k - 1).current;
      assert c == (s.current + (k - 1)) % n;
      ModSucc(s.current + (k - 1), n);
    }
  }

  /** Euclidean division is determined by its defining equation. */
  lemma DivModUnique(a: int, n: int, q: int, m: int)
    requires n > 0 && a == q * n + m && 0 <= m < n
    ensures a % n == m
  {
    var q', m' := a / n, a % n;
    var d := q - q';
    assert d * n == m' - m by {
      assert q * n - q' * n == (q - q') * n;
    }
  }

  lemma ModSucc(a: int, n: int)
    requires a >= 0 && n > 0
    ensures (a % n + 1) % n == (a + 1) % n
  {
    var q, m := a / n, a % n;
    if m + 1 < n {
      DivModUnique(a + 1, n, q, m + 1);
      DivModUnique(m + 1, n, 0, m + 1);
    } else {
      assert a + 1 == (q + 1) * n + 0;
      DivModUnique(a + 1, n, q + 1, 0);
      DivModUnique(m + 1, n, 1, 0);
    }
  }

  /** Pressing `nextStory` once per story comes back to the starting story,
      with an empty bar and the paused flag as it was. */
  lemma NextCycle(stories: seq<Story>, s: State)
    requires 0 <= s.current < |stories|
    ensures NextN(stories, s, |stories|) == s.(progress := 0.0)
  {
    NextNMoves(stories, s, |stories|);
    DivModUnique(s.current + |stories|, |stories|, 1, s.current);
  }

  /** Below the last story, `prevStory` undoes `nextStory` up to the reset bar. */
  lemma PrevUndoesNext(stories: seq<Story>, s: State)
    requires 0 <= s.current < |stories| - 1
    ensures Prev(Next(stories, s)) == s.(progress := 0.0)
  {
  }

  /** Away from the first story, `nextStory` undoes `prevStory` up to the reset bar. */
  lemma NextUndoesPrev(stories: seq<Story>, s: State)
    requires 0 < s.current < |stories|
    ensures Next(stories, Prev(s)) == s.(progress := 0.0)
  {
  }

  /** `nextStory` and a moving `prevStory` are jumps to the neighbouring story. */
  lemma ClickAgreesWithNavigation(stories: seq<Story>, s: State)
    requires 0 <= s.current < |stories|
    ensures Click(stories, s, Next(stories, s).current) == Next(stories, s)
    ensures s.current > 0 ==> Click(stories, s, s.current - 1) == Prev(s)
  {
  }

  /** Toggling twice restores the state. */
  lemma ToggleTwice(s: State)
    ensures Toggle(Toggle(s)) == s
  {
  }

  // ---------------------------------------------------------------------------
  // The timer

  /** Ticks until a story lasting `duration` ms has a full bar: duration / 50
      rounded up. */
  function TicksToFull(duration: int): (k: nat)
    requires duration > 0
    ensures (k - 1) * 50 < duration <= k * 50
  {
    (duration + 50 - 1) / 50
  }

  /** The bar after `k` ticks of `inc` each, starting from empty. */
  function Filled(inc: real, k: nat): real
  {
    if k == 0 then 0.0 else Filled(inc, k - 1) + inc
  }

  lemma {:induction false} FilledIsProduct(inc: real, k: nat)
    ensures Filled(inc, k) == k as real * inc
  {
    if k > 0 {
      FilledIsProduct(inc, k - 1);
      assert (k - 1) as real * inc == k as real * inc - inc;
    }
  }

  /** After `k` ticks of `inc`, which fills the bar in `duration` ms of ticks,
      the bar is still below 100 exactly when the `k` ticks last less than
      `duration` ms. */
  lemma FilledBelowFull(duration: int, k: nat, inc: real)
    requires duration > 0 && inc > 0.0
    requires (duration as real / 50.0) * inc == 100.0
    ensures (Filled(inc, k) < 100.0) <==> k * 50 < duration
    ensures (Filled(inc, k) > 100.0) <==> k * 50 > duration
  {
    FilledIsProduct(inc, k);
    ProgressBelowFull(duration, k, inc);
  }

  lemma ProgressBelowFull(duration: int, k: nat, inc: real)
    requires duration > 0 && inc > 0.0
    requires (duration as real / 50.0) * inc == 100.0
    ensures (k as real * inc < 100.0) <==> k * 50 < duration
    ensures (k as real * inc > 100.0) <==> k * 50 > duration
  {
    ScaledBelowFull(duration as real, k as real, inc);
    TicksAsReal(k, duration);
  }

  /** `inc` fills the bar in `d` ms of ticks; `kr` increments stay below the top
      exactly when `kr` ticks last less than `d` ms. */
  lemma ScaledBelowFull(d: real, kr: real, inc: real)
    requires d > 0.0 && inc > 0.0
    requires (d / 50.0) * inc == 100.0
    ensures (kr * inc < 100.0) <==> kr * 50.0 < d
    ensures (kr * inc > 100.0) <==> kr * 50.0 > d
  {
    BelowFull(d / 50.0, inc, kr);
  }

  lemma BelowFull(n: real, inc: real, kr: real)
    requires n > 0.0 && inc > 0.0 && n * inc == 100.0
    ensures (kr * inc < 100.0) <==> kr < n
    ensures (kr * inc > 100.0) <==> kr > n
  {
    var gap := (n - kr) * inc;
    assert gap == n * inc - kr * inc;
    if kr < n {
      assert gap > 0.0;
    } else if kr > n {
      assert gap < 0.0;
    } else {
      assert gap == 0.0;
    }
  }

  lemma TicksAsReal(k: int, d: int)
    ensures (k as real) * 50.0 < d as real <==> k * 50 < d
    ensures (k as real) * 50.0 > d as real <==> k * 50 > d
  {
  }

  /** Every tick before the last of `TicksToFull` starts within the story's time. */
  lemma EarlierTickBelow(duration: int, k: nat)
    requires duration > 0 && 0 < k <= TicksToFull(duration)
    ensures (k - 1) * 50 < duration
  {
    var n := TicksToFull(duration);
    assert (k - 1) * 50 <= (n - 1) * 50;
  }

  /** A tick on a playing story whose bar is not yet full adds one increment. */
  lemma GrowingTick(stories: seq<Story>, t: State)
    requires WellFormed(stories) && 0 <= t.current < |stories|
    requires !t.paused && t.progress < 100.0
    ensures TickStep(stories, t) == t.(progress := t.progress + Increment(stories[t.current].duration))
  {
  }

  /** A tick on a playing story whose bar is full is exactly `nextStory`. */
  lemma FullTick(stories: seq<Story>, t: State)
    requires WellFormed(stories) && 0 <= t.current < |stories|
    requires !t.paused && t.progress >= 100.0
    ensures TickStep(stories, t) == Next(stories, t)
  {
  }

  /** While a freshly started story's bar fills, each tick adds one increment. */
  lemma {:induction false} StoryFills(stories: seq<Story>, s: State, k: nat)
    requires WellFormed(stories) && 0 <= s.current < |stories|
    requires !s.paused && s.progress == 0.0
    requires k <= TicksToFull(stories[s.current].duration)
    ensures Run(stories, s, k) == s.(progress := Filled(Increment(stories[s.current].duration), k))
  {
    if k > 0 {
      var d := stories[s.current].duration;
      var inc := Increment(d);
      StoryFills(stories, s, k - 1);
      var before := Run(stories, s, k - 1);
      assert before == s.(progress := Filled(inc, k - 1));
      EarlierTickBelow(d, k);
      FilledBelowFull(d, k - 1, inc);
      assert before.progress < 100.0;
      GrowingTick(stories, before);
      assert Run(stories, s, k) == TickStep(stories, before);
      assert TickStep(stories, before) == before.(progress := Filled(inc, k - 1) + inc);
    }
  }

  /** A story started with an empty bar is shown for `TicksToFull` ticks plus
      one: the tick after the bar is full moves on exactly as `nextStory` does. */
  lemma StoryLifetime(stories: seq<Story>, s: State)
    requires WellFormed(stories) && 0 <= s.current < |stories|
    requires !s.paused && s.progress == 0.0
    ensures Run(stories, s, TicksToFull(stories[s.current].duration)).progress >= 100.0
    ensures Run(stories, s, TicksToFull(stories[s.current].duration) + 1) == Next(stories, s)
  {
    var k := TicksToFull(stories[s.current].duration);
    StoryFills(stories, s, k);
    FullAfterTicks(stories[s.current].duration);
    var full := Run(stories, s, k);
    FullTick(stories, full);
  }

  /** `TicksToFull` ticks of a story's increment reach at least 100. */
  lemma FullAfterTicks(duration: int)
    requires duration > 0
    ensures Filled(Increment(duration), TicksToFull(duration)) >= 100.0
  {
    var k := TicksToFull(duration);
    FilledBelowFull(duration, k, Increment(duration));
  }

  /** When a story's duration is not a multiple of 50 ms, its bar passes 100
      on the last tick before the advance: the `>= 100` test runs before the
      increment is added, never after. */
  lemma StoryOvershoots(stories: seq<Story>, s: State)
    requires WellFormed(stories) && 0 <= s.current < |stories|
    requires !s.paused && s.progress == 0.0
    requires stories[s.current].duration % 50 != 0
    ensures Run(stories, s, TicksToFull(stories[s.current].duration)).progress > 100.0
  {
    StoryFills(stories, s, TicksToFull(stories[s.current].duration));
    OverAfterTicks(stories[s.current].duration);
  }

  /** For a duration that is not a multiple of 50 ms, `TicksToFull` ticks of
      its increment pass 100. */
  lemma OverAfterTicks(duration: int)
    requires duration > 0 && duration % 50 != 0
    ensures Filled(Increment(duration), TicksToFull(duration)) > 100.0
  {
    var k := TicksToFull(duration);
    if k * 50 == duration {
      DivModUnique(duration, 50, k, 0);
      assert false;
    }
    FilledBelowFull(duration, k, Increment(duration));
  }

  /** When a story's duration is a multiple of 50 ms, its bar stops at exactly
      100 on the tick before the advance: no overshoot. */
  lemma StoryExactlyFull(stories: seq<Story>, s: State)
    requires WellFormed(stories) && 0 <= s.current < |stories|
    requires !s.paused && s.progress == 0.0
    requires stories[s.current].duration % 50 == 0
    ensures Run(stories, s, TicksToFull(stories[s.current].duration)).progress == 100.0
  {
    StoryFills(stories, s, TicksToFull(stories[s.current].duration));
    ExactAfterTicks(stories[s.current].duration);
  }

  /** For a duration that is a multiple of 50 ms, `TicksToFull` ticks of its
      increment make exactly 100. */
  lemma ExactAfterTicks(duration: int)
    requires duration > 0 && duration % 50 == 0
    ensures Filled(Increment(duration), TicksToFull(duration)) == 100.0
  {
    var k := TicksToFull(duration);
    DivModUnique(duration, 50, duration / 50, 0);
    assert k * 50 == duration;
    FilledBelowFull(duration, k, Increment(duration));
  }

  /** A paused carousel stays exactly where it is, however many ticks pass. */
  lemma {:induction false} PausedFreezes(stories: seq<Story>, s: State, k: nat)
    requires Inv(stories, s) && s.paused
    ensures Run(stories, s, k) == s
  {
    if k > 0 {
      PausedFreezes(stories, s, k - 1);
    }
  }

  /** On the shipped list, the 6000 ms welcome video has a full bar after 120
      ticks (6000 ms) and the carousel shows the second story after 121. */
  lemma ShippedFirstStory()
    ensures Run(Shipped(), Initial, 120) == State(0, 100.0, false)
    ensures Run(Shipped(), Initial, 121) == State(1, 0.0, false)
  {
    var stories := Shipped();
    var inc := Increment(6000);
    assert stories[0].duration == 6000;
    assert TicksToFull(6000) == 120;
    StoryFills(stories, Initial, 120);
    FilledIsProduct(inc, 120);
    assert inc * 120.0 == 100.0;
    StoryLifetime(stories, Initial);
  }

  // ---------------------------------------------------------------------------
  // Derived rendering

  /** Width, in percent, of progress-bar segment `index`. */
  function SegmentWidth(s: State, index: int): real
  {
    if index == s.current then s.progress
    else if index < s.current then 100.0
    else 0.0
  }

  /** The widths of the whole strip, one segment per story. */
  function Bar(stories: seq<Story>, s: State): (ws: seq<real>)
    ensures |ws| == |stories|
    ensures forall i :: 0 <= i < |ws| ==> ws[i] == SegmentWidth(s, i)
  {
    seq(|stories|, i => SegmentWidth(s, i))
  }

  function Sum(ws: seq<real>): real
  {
    if ws == [] then 0.0 else Sum(ws[..|ws| - 1]) + ws[|ws| - 1]
  }

  function Min(a: int, b: int): int
  {
    if a < b then a else b
  }

  /** The first `k` segments hold 100 for every story before the current one,
      plus the live progress once the current one is among them. */
  lemma {:induction false} PrefixFill(s: State, k: nat)
    requires 0 <= s.current
    ensures Sum(seq(k, i => SegmentWidth(s, i))) ==
            100.0 * Min(k, s.current) as real + (if k > s.current then s.progress else 0.0)
  {
    if k > 0 {
      var ws := seq(k, i => SegmentWidth(s, i));
      assert ws[..k - 1] == seq(k - 1, i => SegmentWidth(s, i));
      PrefixFill(s, k - 1);
    }
  }

  /** The strip as a whole shows the position in the carousel: one full
      segment per finished story plus the current story's progress. */
  lemma BarTotal(stories: seq<Story>, s: State)
    requires 0 <= s.current < |stories|
    ensures Sum(Bar(stories, s)) == 100.0 * s.current as real + s.progress
  {
    PrefixFill(s, |stories|);
  }

  /** With the bar in [0, 100], segments never grow from left to right:
      finished stories are full, upcoming ones empty. */
  lemma BarNonIncreasing(stories: seq<Story>, s: State, i: int, j: int)
    requires 0.0 <= s.progress <= 100.0
    requires 0 <= i <= j < |stories|
    ensures 0.0 <= Bar(stories, s)[j] <= Bar(stories, s)[i] <= 100.0
  {
  }

  /** While the bar overshoots 100, the width value given to the active
      segment exceeds the 100 given to every finished one. On screen the
      segment's container clips its bar, so the strip still looks full. */
  lemma BarOvershoot(stories: seq<Story>, s: State, i: int)
    requires 0 <= i < s.current < |stories| && s.progress > 100.0
    ensures Bar(stories, s)[i] < Bar(stories, s)[s.current]
  {
  }

  /** The left arrow is disabled exactly where `prevStory` would do nothing. */
  function LeftArrowDisabled(s: State): (b: bool)
    requires 0 <= s.current
    ensures b <==> Prev(s) == s
  {
    s.current == 0
  }

  /** The right arrow is disabled exactly where `nextStory` would not move
      one story forward (it would wrap, or stay on a one-story list), so a
      press on an enabled arrow never wraps; the right tap zone, which calls
      `nextStory` unconditionally, does. */
  function RightArrowDisabled(stories: seq<Story>, s: State): (b: bool)
    requires 0 <= s.current < |stories|
    ensures b <==> Next(stories, s).current != s.current + 1
    ensures b ==> Next(stories, s).current == 0
  {
    s.current == |stories| - 1
  }
}

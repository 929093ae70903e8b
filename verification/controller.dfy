/** The page component's controller as an object: the three state cells it
    updates in place, one method per user action, and `Tick` for one firing
    of the 50 ms interval timer. Each method is specified by the matching
    transition of the `Carousel` state machine. */
module Controller {
  import opened Stories
  import opened Carousel

  class RetroLinkTree {
    /** The story list, fixed for the lifetime of the page. */
    const stories: seq<Story>
    var currentStory: int
    var progress: real
    var isPaused: bool

    /** The cells as a value of the state machine. */
    function Cells(): State
      reads this
    {
      State(currentStory, progress, isPaused)
    }

    ghost predicate Valid()
      reads this
    {
      Inv(stories, Cells())
    }

    /** Mounting the page: first story, empty bar, playing. */
    constructor (stories: seq<Story>)
      requires WellFormed(stories)
      ensures Valid() && this.stories == stories
      ensures Cells() == Initial
    {
      this.stories := stories;
      currentStory := 0;
      progress := 0.0;
      isPaused := false;
    }

    method NextStory()
      requires Valid()
      modifies this
      ensures Valid() && Cells() == Next(stories, old(Cells()))
      ensures currentStory == (old(currentStory) + 1) % |stories|
      ensures progress == 0.0 && isPaused == old(isPaused)
    {
      if currentStory < |stories| - 1 {
        currentStory := currentStory + 1;
        progress := 0.0;
      } else {
        currentStory := 0;
        progress := 0.0;
      }
    }

    method PrevStory()
      requires Valid()
      modifies this
      ensures Valid() && Cells() == Prev(old(Cells()))
      ensures old(currentStory) == 0 ==> unchanged(this)
      ensures old(currentStory) > 0 ==>
        currentStory == old(currentStory) - 1 && progress == 0.0 && isPaused == old(isPaused)
    {
      if currentStory > 0 {
        currentStory := currentStory - 1;
        progress := 0.0;
      }
    }

    /** Clicking progress-bar segment or dot `index`; both only offer indices
        of the story list. */
    method HandleStoryClick(index: int)
      requires Valid() && 0 <= index < |stories|
      modifies this
      ensures Valid() && Cells() == Click(stories, old(Cells()), index)
      ensures currentStory == index && progress == 0.0 && isPaused == old(isPaused)
    {
      currentStory := index;
      progress := 0.0;
    }

    method TogglePlayPause()
      requires Valid()
      modifies this
      ensures Valid() && Cells() == Toggle(old(Cells()))
      ensures isPaused == !old(isPaused)
      ensures currentStory == old(currentStory) && progress == old(progress)
    {
      isPaused := !isPaused;
    }

    /** One firing of the interval timer, which exists only while playing. */
    method Tick()
      requires Valid()
      modifies this
      ensures Valid() && Cells() == TickStep(stories, old(Cells()))
      ensures old(isPaused) ==> unchanged(this)
      ensures !old(isPaused) && old(progress) >= 100.0 ==>
        Cells() == Next(stories, old(Cells()))
      ensures !old(isPaused) && old(progress) < 100.0 ==>
        currentStory == old(currentStory) &&
        progress == old(progress) + Increment(stories[currentStory].duration)
    {
      if isPaused {
        return;
      }
      var increment := Increment(stories[currentStory].duration);
      if progress >= 100.0 {
        NextStory();
        progress := 0.0;
      } else {
        progress := progress + increment;
      }
    }
  }

  /** A client of the controller: after mounting (and pausing, if asked),
      clicking the last dot and then tapping the right zone lands on the first
      story with an empty bar, and the paused flag survives both actions. */
  method WrapFromLastStory(stories: seq<Story>, paused: bool) returns (index: int, progress: real, isPaused: bool)
    requires WellFormed(stories)
    ensures index == 0 && progress == 0.0 && isPaused == paused
  {
    var page := new RetroLinkTree(stories);
    if paused {
      page.TogglePlayPause();
    }
    page.HandleStoryClick(|stories| - 1);
    page.NextStory();
    index, progress, isPaused := page.currentStory, page.progress, page.isPaused;
  }
}

/** `PostForm`: the state of the post form and its two event handlers. */
module Form {
  import opened Wrappers
  import opened Posts
  import Platforms

  class PostForm {
    var title: string
    var content: string
    var date: string
    var time: string
    var platforms: seq<string>
    var imageData: Option<string>

    /** The selection only ever holds offered platforms, each at most once. */
    ghost predicate Valid()
      reads this
    {
      && Platforms.NoDuplicates(platforms)
      && forall i :: 0 <= i < |platforms| ==> platforms[i] in Platforms.PlatformsList
    }

    /** The form as first shown; the default date and time come from the
        clock, so they are inputs. */
    constructor (defaultDate: string, defaultTime: string)
      ensures Valid()
      ensures title == "" && content == "" && platforms == [] && imageData == None
      ensures date == defaultDate && time == defaultTime
    {
      title, content := "", "";
      date, time := defaultDate, defaultTime;
      platforms := [];
      imageData := None;
    }

    function CurrentDraft(): Draft
      reads this
    {
      Draft(title, content, date, time, platforms, imageData)
    }

    /** `togglePlatform`, called by the platform buttons only. */
    method TogglePlatform(platform: string)
      requires Valid()
      requires platform in Platforms.PlatformsList
      modifies this
      ensures Valid()
      ensures platforms == Platforms.Toggle(old(platforms), platform)
      ensures title == old(title) && content == old(content) && imageData == old(imageData)
      ensures date == old(date) && time == old(time)
    {
      Platforms.ToggleKeepsNoDuplicates(platforms, platform);
      platforms := Platforms.Toggle(platforms, platform);
    }

    /** `handleSubmit`: on acceptance the post goes out and the form is reset
        (to a new default date and time); on rejection nothing changes and
        the user sees the rejection's alert, if it has one. */
    method Submit(id: string, now: int, created: int, localTza: int, defaultDate: string, defaultTime: string)
      returns (outcome: Result<Post, Rejection>, alert: Option<string>)
      requires Valid()
      modifies this
      ensures Valid()
      ensures outcome == Posts.Submit(old(CurrentDraft()), id, now, created, localTza)
      ensures alert == if outcome.Failure? then AlertMessage(outcome.error) else None
      ensures outcome.Success? ==>
        && title == "" && content == "" && imageData == None && platforms == []
        && date == defaultDate && time == defaultTime
      ensures outcome.Failure? ==> unchanged(this)
    {
      outcome := Posts.Submit(CurrentDraft(), id, now, created, localTza);
      alert := if outcome.Failure? then AlertMessage(outcome.error) else None;
      if outcome.Success? {
        title, content := "", "";
        imageData := None;
        platforms := [];
        date, time := defaultDate, defaultTime;
      }
    }
  }
}

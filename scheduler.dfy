/** `App`: the list of scheduled posts, which screen is shown, the toast,
    and what was last handed to the key-value store. */
module Scheduler {
  import opened Wrappers
  import opened Posts
  import Form
  import JsDate
  import opened Seqs

  datatype View = Home | Details

  /** A notification: a message and its kind. */
  datatype Toast = Toast(message: string, kind: string)

  const ScheduledToast: Toast := Toast("Post scheduled successfully!", "success")
  const DeletedToast: Toast := Toast("Post deleted successfully!", "success")

  /** What the App renders: the home screen with its list of posts in the
      order shown, a post's details, or "Post not found". */
  datatype Screen = HomeScreen(posts: seq<Post>) | PostDetails(post: Post) | PostNotFound

  /** The list as a render leaves it: on the home screen `PostList` sorts the
      state array itself (`posts.sort(...)` reorders in place), which is
      `SortBySchedule`; the details screen renders no list. */
  function AfterRender(view: View, posts: seq<Post>): (r: seq<Post>)
    ensures multiset(r) == multiset(posts)
    ensures view == Home ==> SortedBy(r, ScheduleKey)
    ensures view == Details ==> r == posts
  {
    if view == Home then
      SortByCorrect(posts, ScheduleKey);
      SortBy(posts, ScheduleKey)
    else posts
  }

  /** On the home screen the list is already in schedule order, so the render
      after `addPost` only inserts the new post after every post scheduled no
      later than it. */
  lemma AddStep(posts: seq<Post>, post: Post)
    requires SortedBy(posts, ScheduleKey)
    ensures AfterRender(Home, posts + [post]) == Insert(post, posts, ScheduleKey)
  {
    AddToListing(posts, post);
  }

  /** Likewise the render after `deletePost` leaves the remaining posts in
      the order they had. */
  lemma DeleteStep(posts: seq<Post>, id: string)
    requires SortedBy(posts, ScheduleKey)
    ensures AfterRender(Home, WithoutId(posts, id)) == WithoutId(posts, id)
  {
    DeleteFromListing(posts, id);
  }

  class App {
    var toast: Option<Toast>
    var scheduledPosts: seq<Post>
    var currentView: View
    var selectedPostId: Option<string>
    /** The list last written under the key "social-posts". The save effect
        runs after the render that follows a new array in `scheduledPosts`,
        so it writes the array as that render sorted it; an in-place sort of
        the same array triggers no save. */
    var savedPosts: seq<Post>

    /** The list is the stored snapshot itself or the snapshot in schedule
        order (so both hold the same posts), and whenever the home screen is
        shown the list is in schedule order. */
    ghost predicate Valid()
      reads this
    {
      && (scheduledPosts == savedPosts || scheduledPosts == AfterRender(Home, savedPosts))
      && (currentView == Home ==> SortedBy(scheduledPosts, ScheduleKey))
    }

    /** The App after mounting: no posts, the home view, and the save effect's
        first write of the empty list. */
    constructor ()
      ensures Valid()
      ensures toast == None && scheduledPosts == [] && savedPosts == []
      ensures currentView == Home && selectedPostId == None
    {
      toast := None;
      scheduledPosts := [];
      currentView := Home;
      selectedPostId := None;
      savedPosts := [];
    }

    /** A render: the home screen's `PostList` sorts the list in place; the
        save effect does not run, since the array is the same object. */
    method Render()
      modifies this
      ensures scheduledPosts == AfterRender(currentView, old(scheduledPosts))
      ensures savedPosts == old(savedPosts) && toast == old(toast)
      ensures currentView == old(currentView) && selectedPostId == old(selectedPostId)
    {
      scheduledPosts := AfterRender(currentView, scheduledPosts);
    }

    /** `loadPosts` completing: with a stored list it replaces the posts, and
        after the render the save effect writes the list back as rendered;
        when nothing was stored or reading failed (`None`) nothing changes. */
    method LoadPosts(stored: Option<seq<Post>>)
      requires Valid()
      modifies this
      ensures Valid()
      ensures scheduledPosts == (if stored.Some? then AfterRender(currentView, stored.value) else old(scheduledPosts))
      ensures savedPosts == (if stored.Some? then scheduledPosts else old(savedPosts))
      ensures toast == old(toast) && currentView == old(currentView) && selectedPostId == old(selectedPostId)
    {
      if stored.Some? {
        scheduledPosts := stored.value;
        Render();
        savedPosts := scheduledPosts;
      }
    }

    /** `addPost`, the home screen form's `onSubmit`: append (no check for an
        existing id) and notify; the render sorts the new list, which puts the
        post after every post scheduled no later, and the save effect stores
        the list sorted. */
    method AddPost(post: Post)
      requires Valid() && currentView == Home
      modifies this
      ensures Valid()
      ensures scheduledPosts == AfterRender(currentView, old(scheduledPosts) + [post])
      ensures scheduledPosts == Insert(post, old(scheduledPosts), ScheduleKey)
      ensures savedPosts == scheduledPosts
      ensures toast == Some(ScheduledToast)
      ensures currentView == old(currentView) && selectedPostId == old(selectedPostId)
    {
      // The render sorts the appended list, which inserts the post.
      AddStep(scheduledPosts, post);
      toast := Some(ScheduledToast);
      scheduledPosts := Insert(post, scheduledPosts, ScheduleKey);
      savedPosts := scheduledPosts;
    }

    /** `deletePost`, called by the delete buttons of the home screen's list:
        keep the posts with another id and notify, whether or not a post had
        that id; the render leaves the remaining posts in their order, and
        the list is saved. */
    method DeletePost(postId: string)
      requires Valid() && currentView == Home
      modifies this
      ensures Valid()
      ensures scheduledPosts == AfterRender(currentView, WithoutId(old(scheduledPosts), postId))
      ensures scheduledPosts == WithoutId(old(scheduledPosts), postId)
      ensures savedPosts == scheduledPosts
      ensures toast == Some(DeletedToast)
      ensures currentView == old(currentView) && selectedPostId == old(selectedPostId)
    {
      // The render leaves the filtered list as it is.
      DeleteStep(scheduledPosts, postId);
      toast := Some(DeletedToast);
      scheduledPosts := WithoutId(scheduledPosts, postId);
      savedPosts := scheduledPosts;
    }

    /** `viewPostDetails`: the details view, for any id. */
    method ViewPostDetails(postId: string)
      requires Valid() && currentView == Home
      modifies this
      ensures Valid()
      ensures currentView == Details && selectedPostId == Some(postId)
      ensures scheduledPosts == old(scheduledPosts) && savedPosts == old(savedPosts) && toast == old(toast)
    {
      selectedPostId := Some(postId);
      currentView := Details;
      Render();
    }

    /** `goHome`: back to the home view with nothing selected. The render
        sorts the list in place and nothing is saved. The home screen mounts a
        new `PostForm`, whose initial state reads the clock again, so the
        default date and time are inputs; the returned form is that new one. */
    method GoHome(defaultDate: string, defaultTime: string) returns (form: Form.PostForm)
      requires Valid() && currentView == Details
      modifies this
      ensures Valid()
      ensures currentView == Home && selectedPostId == None
      ensures scheduledPosts == SortBySchedule(old(scheduledPosts))
      ensures savedPosts == old(savedPosts) && toast == old(toast)
      ensures fresh(form) && form.Valid()
      ensures form.title == "" && form.content == "" && form.platforms == [] && form.imageData == None
      ensures form.date == defaultDate && form.time == defaultTime
    {
      SortByScheduleIdempotent(savedPosts);
      selectedPostId := None;
      currentView := Home;
      Render();
      form := new Form.PostForm(defaultDate, defaultTime);
    }

    /** The toast's `onClose`, which its timer calls after three seconds. The
        render sorts the list again, which leaves it as it was. */
    method CloseToast()
      requires Valid() && currentView == Home && toast.Some?
      modifies this
      ensures Valid()
      ensures toast == None
      ensures scheduledPosts == old(scheduledPosts) && savedPosts == old(savedPosts)
      ensures currentView == old(currentView) && selectedPostId == old(selectedPostId)
    {
      toast := None;
      SortByScheduleFixes(scheduledPosts);
      Render();
    }

    /** `selectedPost`: the first post with the selected id, if any. */
    function SelectedPost(): (r: Option<Post>)
      reads this
      ensures r.Some? ==> selectedPostId.Some? && r.value.id == selectedPostId.value && r.value in scheduledPosts
      ensures r.None? <==> selectedPostId.None?
                           || forall i :: 0 <= i < |scheduledPosts| ==> scheduledPosts[i].id != selectedPostId.value
    {
      if selectedPostId.None? then None else FindById(scheduledPosts, selectedPostId.value)
    }

    /** What is on screen: the details view shows "Post not found" when no
        post has the selected id. */
    function CurrentScreen(): (s: Screen)
      reads this
      ensures s.HomeScreen? <==> currentView == Home
      ensures s.HomeScreen? ==> s.posts == scheduledPosts
      ensures s.PostDetails? <==> currentView == Details && SelectedPost().Some?
      ensures s.PostDetails? ==> s.post == SelectedPost().value
    {
      match currentView
      case Home => HomeScreen(scheduledPosts)
      case Details =>
        match SelectedPost()
        case Some(p) => PostDetails(p)
        case None => PostNotFound
    }
  }

  /** The form is shown on the home screen only, and its `onSubmit` is the
      App's `addPost`: an accepted draft adds exactly one post, resets the
      form and leaves the screen as it was; a refused one changes neither the
      list nor the store nor the form. */
  method SubmitDraft(form: Form.PostForm, app: App, id: string, now: int, created: int, localTza: int,
                     defaultDate: string, defaultTime: string)
    returns (outcome: Result<Post, Rejection>, alert: Option<string>)
    requires form.Valid() && app.Valid() && app.currentView == Home
    modifies form, app
    ensures form.Valid() && app.Valid()
    ensures outcome == Posts.Submit(old(form.CurrentDraft()), id, now, created, localTza)
    ensures alert == if outcome.Failure? then AlertMessage(outcome.error) else None
    ensures outcome.Success? ==>
      && app.scheduledPosts == AfterRender(old(app.currentView), old(app.scheduledPosts) + [outcome.value])
      && app.scheduledPosts == Insert(outcome.value, old(app.scheduledPosts), ScheduleKey)
      && app.savedPosts == app.scheduledPosts
      && app.toast == Some(ScheduledToast)
      && app.currentView == old(app.currentView) && app.selectedPostId == old(app.selectedPostId)
      && form.title == "" && form.content == "" && form.platforms == [] && form.imageData == None
      && form.date == defaultDate && form.time == defaultTime
    ensures outcome.Failure? ==> unchanged(app) && unchanged(form)
  {
    outcome, alert := form.Submit(id, now, created, localTza, defaultDate, defaultTime);
    if outcome.Success? {
      app.AddPost(outcome.value);
    }
  }

  /** Post A, scheduled a day after post B, is added first: the store then
      holds B before A, the order the home screen's render gave the list. */
  method StoredOrderExample(a: Post, b: Post) returns (stored: seq<Post>)
    requires a.scheduledFor == b.scheduledFor + JsDate.MsPerDay
    ensures stored == [b, a]
  {
    InsertExample(a, b);
    var app := new App();
    app.AddPost(a);
    app.AddPost(b);
    stored := app.savedPosts;
  }

  lemma InsertExample(a: Post, b: Post)
    requires a.scheduledFor == b.scheduledFor + JsDate.MsPerDay
    ensures Insert(a, [], ScheduleKey) == [a]
    ensures Insert(b, [a], ScheduleKey) == [b, a]
  {
    assert ScheduleKey(b) < ScheduleKey(a);
  }

  /** Two posts with one id: A is listed, then B with A's id and scheduled a
      day earlier is added. The render puts B first, so the details view for
      that id shows B, and A can no longer be shown. */
  method DuplicateIdExample(a: Post, b: Post) returns (shown: Option<Post>)
    requires a.scheduledFor == b.scheduledFor + JsDate.MsPerDay && b.id == a.id
    ensures shown == Some(b)
  {
    InsertExample(a, b);
    var app := new App();
    app.AddPost(a);
    app.AddPost(b);
    app.ViewPostDetails(a.id);
    shown := app.SelectedPost();
  }
}

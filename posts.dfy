/** Posts and the pure part of the scheduler: the checks `handleSubmit` makes
    on a draft, the post it builds, and the list operations of `App` and
    `PostList`. */
module Posts {
  import opened Wrappers
  import opened Seqs
  import JsDate

  /** A scheduled post. `scheduledFor` and `created` are time values in
      milliseconds (the source stores their `toISOString()` text, from which
      `new Date(...)` recovers the same time value). */
  datatype Post = Post(id: string, title: string, content: string, scheduledFor: int,
                       platforms: seq<string>, image: Option<string>, created: int)

  /** What the form holds when "Schedule Post" is pressed. */
  datatype Draft = Draft(title: string, content: string, date: string, time: string,
                         platforms: seq<string>, image: Option<string>)

  /** Why a submission does not reach `onSubmit`. `InvalidDate` is the
      RangeError `toISOString()` throws on an Invalid Date. */
  datatype Rejection = MissingFields | InPast | InvalidDate

  /** The alert the user sees; the RangeError ends the handler without one. */
  function AlertMessage(rejection: Rejection): (alert: Option<string>)
    ensures alert.Some? <==> rejection != InvalidDate
    ensures rejection == MissingFields ==> alert == Some("Please fill all fields")
    ensures rejection == InPast ==> alert == Some("Cannot schedule posts in the past")
  {
    match rejection
    case MissingFields => Some("Please fill all fields")
    case InPast => Some("Cannot schedule posts in the past")
    case InvalidDate => None
  }

  /** A required field is empty. Only emptiness counts: a title of spaces is present. */
  predicate MissingField(d: Draft)
  {
    d.title == "" || d.content == "" || |d.platforms| == 0 || d.date == "" || d.time == ""
  }

  /** The checks of `handleSubmit`, giving the instant the post is scheduled for. */
  function Validate(d: Draft, now: int, localTza: int): (r: Result<int, Rejection>)
    ensures r == Failure(MissingFields) <==> MissingField(d)
    ensures r.Success? ==> now <= r.value
    ensures r.Success? ==> JsDate.LocalInstant(d.date, d.time, localTza) == JsDate.Finite(r.value)
    ensures !MissingField(d) ==>
      (r.Success? <==> JsDate.LocalInstant(d.date, d.time, localTza).Finite?
                       && JsDate.LocalInstant(d.date, d.time, localTza).value >= now)
    ensures r == Failure(InvalidDate) <==> !MissingField(d) && JsDate.LocalInstant(d.date, d.time, localTza).NaN?
  {
    if MissingField(d) then Failure(MissingFields)
    else
      var scheduledFor := JsDate.LocalInstant(d.date, d.time, localTza);
      if JsDate.Before(scheduledFor, now) then Failure(InPast)
      else if scheduledFor.NaN? then Failure(InvalidDate)
      else Success(scheduledFor.value)
  }

  /** With every field filled in, the draft is refused as past exactly when
      its instant is earlier than now. */
  lemma ValidatePastIff(d: Draft, now: int, localTza: int)
    requires !MissingField(d)
    ensures Validate(d, now, localTza) == Failure(InPast)
        <==> JsDate.Before(JsDate.LocalInstant(d.date, d.time, localTza), now)
  {
  }

  /** An instant equal to now is accepted (the comparison is `<`). */
  lemma ValidateAcceptsNow(d: Draft, now: int, localTza: int)
    requires !MissingField(d)
    requires JsDate.LocalInstant(d.date, d.time, localTza) == JsDate.Finite(now)
    ensures Validate(d, now, localTza) == Success(now)
  {
  }

  /** For well-formed date and time inputs, the decision depends only on the
      local calendar fields, the zone offset and now. */
  lemma ValidateWellFormed(d: Draft, now: int, localTza: int)
    requires !MissingField(d)
    requires JsDate.WellFormed(d.date, d.time)
    requires var t := JsDate.LocalMs(JsDate.Fields(d.date, d.time)) - localTza;
             -JsDate.MaxTimeValue <= t <= JsDate.MaxTimeValue
    ensures var t := JsDate.LocalMs(JsDate.Fields(d.date, d.time)) - localTza;
            Validate(d, now, localTza) == if t < now then Failure(InPast) else Success(t)
  {
    JsDate.LocalInstantOfFields(d.date, d.time, localTza);
  }

  /** A filled-in date without two dashes never gets past `toISOString()`. */
  lemma ValidateMalformedDate(d: Draft, now: int, localTza: int)
    requires !MissingField(d)
    requires |JsDate.Split(d.date, '-')| < 3
    ensures Validate(d, now, localTza) == Failure(InvalidDate)
  {
    JsDate.MissingPieceIsInvalid(d.date, d.time, localTza);
  }

  /** `handleSubmit` up to `onSubmit(post)`: the post it passes on, or why it
      passes none. The id and the creation time are inputs. */
  function Submit(d: Draft, id: string, now: int, created: int, localTza: int): (r: Result<Post, Rejection>)
    ensures r.Failure? <==> Validate(d, now, localTza).Failure?
    ensures r.Failure? ==> r.error == Validate(d, now, localTza).error
    ensures r.Success? ==>
      && r.value.id == id && r.value.created == created
      && r.value.title == d.title && r.value.content == d.content
      && r.value.platforms == d.platforms && r.value.image == d.image
      && JsDate.LocalInstant(d.date, d.time, localTza) == JsDate.Finite(r.value.scheduledFor)
      && now <= r.value.scheduledFor
      && r.value.title != "" && r.value.content != "" && r.value.platforms != []
  {
    match Validate(d, now, localTza)
    case Failure(e) => Failure(e)
    case Success(scheduledFor) =>
      Success(Post(id, d.title, d.content, scheduledFor, d.platforms, d.image, created))
  }

  // ---------------------------------------------------------------------
  // The post list

  /** The test "has another id" (`p => p._id !== postId`). */
  function IdIsNot(id: string): Post -> bool
  {
    (p: Post) => p.id != id
  }

  /** `deletePost`'s new list. */
  function WithoutId(posts: seq<Post>, id: string): (r: seq<Post>)
    ensures |r| <= |posts|
    ensures forall i :: 0 <= i < |r| ==> r[i].id != id && r[i] in posts
    ensures forall i :: 0 <= i < |posts| && posts[i].id != id ==> posts[i] in r
  {
    Filter(posts, IdIsNot(id))
  }

  /** Deleting keeps every post with another id, in order and as often as it
      occurred, and leaves none with the deleted id. */
  lemma DeleteKeepsOthers(posts: seq<Post>, id: string)
    ensures IsSubsequence(WithoutId(posts, id), posts)
    ensures forall i :: 0 <= i < |WithoutId(posts, id)| ==> WithoutId(posts, id)[i].id != id
    ensures forall p: Post :: p.id != id ==> multiset(WithoutId(posts, id))[p] == multiset(posts)[p]
  {
    FilterIsSubsequence(posts, IdIsNot(id));
    forall p: Post | p.id != id ensures multiset(WithoutId(posts, id))[p] == multiset(posts)[p] {
      FilterCount(posts, IdIsNot(id), p);
    }
  }

  /** Deleting an id no post has changes nothing. */
  lemma DeleteAbsent(posts: seq<Post>, id: string)
    requires forall i :: 0 <= i < |posts| ==> posts[i].id != id
    ensures WithoutId(posts, id) == posts
  {
    FilterAllKept(posts, IdIsNot(id));
  }

  /** Deleting an id twice is deleting it once. */
  lemma DeleteIdempotent(posts: seq<Post>, id: string)
    ensures WithoutId(WithoutId(posts, id), id) == WithoutId(posts, id)
  {
    FilterIdempotent(posts, IdIsNot(id));
  }

  /** `scheduledPosts.find(p => p._id === id)`: the first post with that id. */
  function FindById(posts: seq<Post>, id: string): (r: Option<Post>)
    ensures r.None? <==> forall i :: 0 <= i < |posts| ==> posts[i].id != id
    ensures r.Some? ==> exists i :: 0 <= i < |posts| && posts[i] == r.value && r.value.id == id
                                    && forall j :: 0 <= j < i ==> posts[j].id != id
  {
    if posts == [] then None
    else if posts[0].id == id then Some(posts[0])
    else
      var r := FindById(posts[1..], id);
      assert r.Some? ==> exists i :: 0 <= i < |posts| && posts[i] == r.value && r.value.id == id
                                   && forall j :: 0 <= j < i ==> posts[j].id != id by {
        if r.Some? {
          var i :| 0 <= i < |posts[1..]| && posts[1..][i] == r.value && r.value.id == id
                   && forall j :: 0 <= j < i ==> posts[1..][j].id != id;
          assert posts[i + 1] == r.value;
          assert forall j :: 0 <= j < i + 1 ==> posts[j].id != id by {
            forall j | 0 <= j < i + 1 ensures posts[j].id != id {
              if j > 0 { assert posts[j] == posts[1..][j - 1]; }
            }
          }
        }
      }
      r
  }

  /** After deleting an id, looking it up finds nothing. */
  lemma FindAfterDelete(posts: seq<Post>, id: string)
    ensures FindById(WithoutId(posts, id), id) == None
  {
  }

  /** In the appended list, a new post is found by its id unless an earlier
      post already has that id: `addPost` checks nothing. Which of the two the
      details view finds is decided later, by the listing order the render
      gives them (`FindShadows`). */
  lemma {:induction false} FindAfterAdd(posts: seq<Post>, post: Post)
    ensures FindById(posts + [post], post.id) ==
            if FindById(posts, post.id).Some? then FindById(posts, post.id) else Some(post)
  {
    if posts != [] {
      FindAfterAdd(posts[1..], post);
      assert (posts + [post])[0] == posts[0];
      assert (posts + [post])[1..] == posts[1..] + [post];
    } else {
      assert posts + [post] == [post];
    }
  }

  /** Of two posts with one id, `find` returns the one listed first, so the
      other one is never found. */
  lemma FindShadows(posts: seq<Post>, i: nat, j: nat)
    requires i < j < |posts| && posts[i].id == posts[j].id
    requires forall k :: 0 <= k < i ==> posts[k].id != posts[i].id
    ensures FindById(posts, posts[j].id) == Some(posts[i])
  {
    var id := posts[j].id;
    var r := FindById(posts, id);
    assert posts[j].id == id;
    var k :| 0 <= k < |posts| && posts[k] == r.value && r.value.id == id
             && forall m :: 0 <= m < k ==> posts[m].id != id;
    if k < i {
      assert posts[k].id != posts[i].id;
    } else if k > i {
      assert posts[i].id != id;
    }
  }

  /** The sort key of the list: `new Date(a.scheduledFor) - new Date(b.scheduledFor)`. */
  function ScheduleKey(p: Post): int
  {
    p.scheduledFor
  }

  /** `posts.sort(...)` in `PostList`: ascending by scheduled instant, the same
      posts, and posts scheduled for the same instant in their prior order. */
  function SortBySchedule(posts: seq<Post>): (r: seq<Post>)
    ensures forall i, j :: 0 <= i < j < |r| ==> r[i].scheduledFor <= r[j].scheduledFor
    ensures multiset(r) == multiset(posts)
    ensures forall t :: Filter(r, HasKey(ScheduleKey, t)) == Filter(posts, HasKey(ScheduleKey, t))
  {
    SortByCorrect(posts, ScheduleKey);
    var r := SortBy(posts, ScheduleKey);
    assert forall i, j :: 0 <= i < j < |r| ==> ScheduleKey(r[i]) <= ScheduleKey(r[j]);
    r
  }

  /** A list already in schedule order is left as it is, so sorting twice is
      sorting once. */
  lemma SortByScheduleFixes(posts: seq<Post>)
    requires SortedBy(posts, ScheduleKey)
    ensures SortBySchedule(posts) == posts
  {
    SortBySorted(posts, ScheduleKey);
  }

  lemma SortByScheduleIdempotent(posts: seq<Post>)
    ensures SortBySchedule(SortBySchedule(posts)) == SortBySchedule(posts)
  {
    var r := SortBySchedule(posts);
    assert SortedBy(r, ScheduleKey);
    SortByScheduleFixes(r);
  }

  /** A post added to a listed list is inserted after every post scheduled no
      later than it. */
  lemma AddToListing(posts: seq<Post>, post: Post)
    requires SortedBy(posts, ScheduleKey)
    ensures SortBySchedule(posts + [post]) == Insert(post, posts, ScheduleKey)
  {
    SortByAppend(posts, post, ScheduleKey);
  }

  /** Deleting from a listed list leaves the remaining posts in their order. */
  lemma DeleteFromListing(posts: seq<Post>, id: string)
    requires SortedBy(posts, ScheduleKey)
    ensures SortBySchedule(WithoutId(posts, id)) == WithoutId(posts, id)
  {
    FilterSorted(posts, IdIsNot(id), ScheduleKey);
    SortByScheduleFixes(WithoutId(posts, id));
  }

  /** Post A scheduled a day after post B is listed after it. */
  lemma ListingExample(a: Post, b: Post)
    requires a.scheduledFor == b.scheduledFor + JsDate.MsPerDay
    ensures SortBySchedule([a, b]) == [b, a]
  {
    var r := SortBySchedule([a, b]);
    assert multiset(r) == multiset{a, b};
    assert |r| == 2;
    assert r[0] in multiset{a, b} && r[1] in multiset{a, b};
  }
}

/** The social part of backend/routes/users.js: following and unfollowing, which
    keep two denormalised id lists per user, and the friends' activity feed. */
module UserRoutes {
  import opened Results
  import opened Seqs
  import opened Time
  import opened HabitSchema
  import HabitRoutes

  /** The two id lists a user document keeps. */
  datatype Profile = Profile(following: seq<UserId>, followers: seq<UserId>)

  /** The user documents, by id. */
  type Graph = map<UserId, Profile>

  datatype FollowError = UserNotFound | CannotFollowSelf | AlreadyFollowing | NotFollowing

  function Message(e: FollowError): string {
    match e
    case UserNotFound => "User not found"
    case CannotFollowSelf => "You cannot follow yourself"
    case AlreadyFollowing => "Already following this user"
    case NotFollowing => "Not following this user"
  }

  function Status(e: FollowError): int {
    if e == UserNotFound then 404 else 400
  }

  /** `ids.filter(id => id !== x)`: every occurrence of `x` removed, the other ids
      kept in their order. */
  function Without(ids: seq<UserId>, x: UserId): (r: seq<UserId>)
    ensures x !in r
    ensures forall y :: y != x ==> multiset(r)[y] == multiset(ids)[y]
  {
    var r := Filter(ids, (id: UserId) => id != x);
    assert forall y :: y != x ==> multiset(r)[y] == multiset(ids)[y] by {
      forall y | y != x ensures multiset(r)[y] == multiset(ids)[y] {
        FilterMultiplicity(ids, (id: UserId) => id != x, y);
      }
    }
    r
  }

  /** Removing an id just appended to a list that did not hold it restores the list. */
  lemma WithoutAppended(ids: seq<UserId>, x: UserId)
    requires x !in ids
    ensures Without(ids + [x], x) == ids
  {
    var p := (id: UserId) => id != x;
    FilterConcat(ids, [x], p);
    FilterAll(ids, p);
    assert Filter([x], p) == [];
  }

  /** Removal keeps the remaining ids in their order: it distributes over
      concatenation. */
  lemma WithoutKeepsOrder(a: seq<UserId>, b: seq<UserId>, x: UserId)
    ensures Without(a + b, x) == Without(a, x) + Without(b, x)
  {
    FilterConcat(a, b, (id: UserId) => id != x);
  }

  /** `POST /:id/follow` by user `me` for user `target`, on the documents `g`. */
  function FollowResult(g: Graph, me: UserId, target: UserId): (r: Result<Graph, FollowError>)
    requires me in g
    ensures r.Ok? <==> target in g && target != me && target !in g[me].following
    ensures r == Err(UserNotFound) <==> target !in g
    ensures r == Err(CannotFollowSelf) <==> target in g && target == me
    ensures r == Err(AlreadyFollowing) <==> target in g && target != me && target in g[me].following
    ensures r.Ok? ==> r.value.Keys == g.Keys
    ensures r.Ok? ==> r.value[me] == Profile(g[me].following + [target], g[me].followers)
    ensures r.Ok? ==> r.value[target] == Profile(g[target].following, g[target].followers + [me])
    ensures r.Ok? ==> forall u :: u in g && u != me && u != target ==> r.value[u] == g[u]
  {
    if target !in g then Err(UserNotFound)
    else if target == me then Err(CannotFollowSelf)
    else if target in g[me].following then Err(AlreadyFollowing)
    else
      var g1 := g[me := g[me].(following := g[me].following + [target])];
      Ok(g1[target := g1[target].(followers := g1[target].followers + [me])])
  }

  /** `POST /:id/unfollow` by user `me` for user `target`, on the documents `g`. */
  function UnfollowResult(g: Graph, me: UserId, target: UserId): (r: Result<Graph, FollowError>)
    requires me in g
    ensures r.Ok? <==> target in g && target in g[me].following
    ensures r == Err(UserNotFound) <==> target !in g
    ensures r == Err(NotFollowing) <==> target in g && target !in g[me].following
    ensures r.Ok? ==> r.value.Keys == g.Keys
    ensures r.Ok? ==> r.value[me].following == Without(g[me].following, target)
    ensures r.Ok? ==> r.value[target].followers == Without(g[target].followers, me)
    ensures r.Ok? && me != target ==> r.value[me].followers == g[me].followers
    ensures r.Ok? && me != target ==> r.value[target].following == g[target].following
    ensures r.Ok? ==> forall u :: u in g && u != me && u != target ==> r.value[u] == g[u]
  {
    if target !in g then Err(UserNotFound)
    else if target !in g[me].following then Err(NotFollowing)
    else
      var g1 := g[me := g[me].(following := Without(g[me].following, target))];
      Ok(g1[target := g1[target].(followers := Without(g1[target].followers, me))])
  }

  /** The two lists agree: `b` is in `a`'s following exactly when `a` is in
      `b`'s followers. */
  ghost predicate Symmetric(g: Graph) {
    forall a, b :: a in g && b in g ==> (b in g[a].following <==> a in g[b].followers)
  }

  lemma FollowKeepsSymmetry(g: Graph, me: UserId, target: UserId)
    requires me in g && Symmetric(g) && FollowResult(g, me, target).Ok?
    ensures Symmetric(FollowResult(g, me, target).value)
  {
    var h := FollowResult(g, me, target).value;
    forall a, b | a in h && b in h ensures b in h[a].following <==> a in h[b].followers {
      assert b in g[a].following <==> a in g[b].followers;
    }
  }

  lemma UnfollowKeepsSymmetry(g: Graph, me: UserId, target: UserId)
    requires me in g && Symmetric(g) && UnfollowResult(g, me, target).Ok?
    ensures Symmetric(UnfollowResult(g, me, target).value)
  {
    var h := UnfollowResult(g, me, target).value;
    forall a, b | a in h && b in h ensures b in h[a].following <==> a in h[b].followers {
      assert b in g[a].following <==> a in g[b].followers;
      if a == me && b != target {
        assert multiset(h[a].following)[b] == multiset(g[a].following)[b];
      }
      if b == target && a != me {
        assert multiset(h[b].followers)[a] == multiset(g[b].followers)[a];
      }
    }
  }

  /** Following a user and then unfollowing them restores every document. */
  lemma FollowThenUnfollow(g: Graph, me: UserId, target: UserId)
    requires me in g && Symmetric(g) && FollowResult(g, me, target).Ok?
    ensures UnfollowResult(FollowResult(g, me, target).value, me, target) == Ok(g)
  {
    var h := FollowResult(g, me, target).value;
    assert me !in g[target].followers;
    WithoutAppended(g[me].following, target);
    WithoutAppended(g[target].followers, me);
    var k := UnfollowResult(h, me, target).value;
    assert k == g;
  }

  /** The user documents as the follow and unfollow handlers update them in place. */
  class UserStore {
    var profiles: Graph

    constructor (profiles: Graph)
      ensures this.profiles == profiles
    {
      this.profiles := profiles;
    }

    /** `POST /:id/follow`: push onto the caller's `following`, save, then push
        onto the target's `followers`, save. */
    method Follow(me: UserId, target: UserId) returns (r: Outcome<FollowError>)
      requires me in profiles
      modifies this
      ensures FollowResult(old(profiles), me, target).Err? ==>
        r == Fail(FollowResult(old(profiles), me, target).error) && profiles == old(profiles)
      ensures FollowResult(old(profiles), me, target).Ok? ==>
        r == Pass && profiles == FollowResult(old(profiles), me, target).value
    {
      if target !in profiles {
        return Fail(UserNotFound);
      }
      if target == me {
        return Fail(CannotFollowSelf);
      }
      if target in profiles[me].following {
        return Fail(AlreadyFollowing);
      }
      var mine := profiles[me];
      profiles := profiles[me := mine.(following := mine.following + [target])];
      var theirs := profiles[target];
      profiles := profiles[target := theirs.(followers := theirs.followers + [me])];
      r := Pass;
    }

    /** `POST /:id/unfollow`: filter the caller's `following`, save, then filter
        the target's `followers`, save. */
    method Unfollow(me: UserId, target: UserId) returns (r: Outcome<FollowError>)
      requires me in profiles
      modifies this
      ensures UnfollowResult(old(profiles), me, target).Err? ==>
        r == Fail(UnfollowResult(old(profiles), me, target).error) && profiles == old(profiles)
      ensures UnfollowResult(old(profiles), me, target).Ok? ==>
        r == Pass && profiles == UnfollowResult(old(profiles), me, target).value
    {
      if target !in profiles {
        return Fail(UserNotFound);
      }
      if target !in profiles[me].following {
        return Fail(NotFollowing);
      }
      var mine := profiles[me];
      profiles := profiles[me := mine.(following := Without(mine.following, target))];
      var theirs := profiles[target];
      profiles := profiles[target := theirs.(followers := Without(theirs.followers, me))];
      r := Pass;
    }
  }

  /** `completedToday`: some completed entry has the calendar date of `now`. */
  predicate CompletedToday(cs: seq<Completion>, now: int) {
    exists c :: c in cs && Day(c.date) == Day(now) && c.completed
  }

  /** The feed's flag agrees with the completion handler's daily check. */
  lemma CompletedTodayIsDailyCheck(cs: seq<Completion>, now: int)
    ensures CompletedToday(cs, now) == HabitRoutes.AlreadyCompleted(Daily, cs, Midnight(now))
  {
    forall c | c in cs {
      SameMidnightIffSameDay(c.date, now);
    }
  }

  /** The fields of a stored habit the activity query reads. */
  datatype StoredHabit = StoredHabit(
    id: HabitId, name: string, user: UserId, streak: nat,
    completions: seq<Completion>, updatedAt: int)

  datatype ActivityItem = ActivityItem(
    id: HabitId, name: string, user: UserId, streak: nat,
    completedToday: bool, updatedAt: int)

  const ActivityLimit: nat := 20

  function UpdatedAt(h: StoredHabit): int {
    h.updatedAt
  }

  /** The query's filter: a followed user's habit updated in the last seven days. */
  predicate IsRecent(h: StoredHabit, following: seq<UserId>, now: int) {
    h.user in following && h.updatedAt >= now - 7 * DayMs
  }

  function ToItem(h: StoredHabit, now: int): ActivityItem {
    ActivityItem(h.id, h.name, h.user, h.streak, CompletedToday(h.completions, now), h.updatedAt)
  }

  /** The habits the query matches, in stored order. */
  function Recent(habits: seq<StoredHabit>, following: seq<UserId>, now: int): (r: seq<StoredHabit>)
    ensures forall i :: 0 <= i < |r| ==> r[i] in habits && IsRecent(r[i], following, now)
    ensures forall h :: multiset(r)[h] == if IsRecent(h, following, now) then multiset(habits)[h] else 0
  {
    var r := Filter(habits, h => IsRecent(h, following, now));
    assert forall h :: multiset(r)[h] == if IsRecent(h, following, now) then multiset(habits)[h] else 0 by {
      forall h ensures multiset(r)[h] == if IsRecent(h, following, now) then multiset(habits)[h] else 0 {
        FilterMultiplicity(habits, h => IsRecent(h, following, now), h);
      }
    }
    r
  }

  /** `.sort({ updatedAt: -1 }).limit(20)` over the matching habits: at most 20 of
      them, each at most as often as it matches, newest first, and no matching
      habit left out is newer than one kept. */
  function Newest(habits: seq<StoredHabit>, following: seq<UserId>, now: int): (top: seq<StoredHabit>)
    ensures |top| == if |Recent(habits, following, now)| < ActivityLimit
                     then |Recent(habits, following, now)| else ActivityLimit
    ensures multiset(top) <= multiset(Recent(habits, following, now))
    ensures SortedDescBy(top, UpdatedAt)
    ensures forall h, i :: 0 <= i < |top| && multiset(top)[h] < multiset(Recent(habits, following, now))[h]
                ==> top[i].updatedAt >= h.updatedAt
  {
    var matching := Recent(habits, following, now);
    var sorted := SortDescBy(matching, UpdatedAt);
    var k := if |sorted| < ActivityLimit then |sorted| else ActivityLimit;
    var top := sorted[..k];
    DroppedAreOlder(sorted, k);
    top
  }

  /** Cutting a descending list after `k` elements keeps a sub-multiset, and every
      element cut off is no newer than any element kept. */
  lemma DroppedAreOlder(sorted: seq<StoredHabit>, k: nat)
    requires k <= |sorted| && SortedDescBy(sorted, UpdatedAt)
    ensures multiset(sorted[..k]) <= multiset(sorted)
    ensures SortedDescBy(sorted[..k], UpdatedAt)
    ensures forall h, i :: 0 <= i < k && multiset(sorted[..k])[h] < multiset(sorted)[h]
                ==> sorted[i].updatedAt >= h.updatedAt
  {
    assert sorted == sorted[..k] + sorted[k..];
    assert multiset(sorted) == multiset(sorted[..k]) + multiset(sorted[k..]);
    forall h, i | 0 <= i < k && multiset(sorted[..k])[h] < multiset(sorted)[h]
      ensures sorted[i].updatedAt >= h.updatedAt
    {
      assert h in multiset(sorted[k..]);
      var j :| 0 <= j < |sorted[k..]| && sorted[k..][j] == h;
      assert sorted[k + j] == h;
      assert UpdatedAt(sorted[i]) >= UpdatedAt(sorted[k + j]);
    }
  }

  /** `habits.map(...)`: one activity item per habit, in the same order. */
  function Items(hs: seq<StoredHabit>, now: int): (r: seq<ActivityItem>)
    ensures |r| == |hs|
    ensures forall i :: 0 <= i < |r| ==> r[i] == ToItem(hs[i], now)
  {
    if hs == [] then [] else [ToItem(hs[0], now)] + Items(hs[1..], now)
  }

  /** `GET /activity`: the habits of followed users updated in the last seven
      days, most recently updated first, at most 20 of them, each with its
      `completedToday` flag. */
  function Activity(habits: seq<StoredHabit>, following: seq<UserId>, now: int): (r: seq<ActivityItem>)
    ensures r == Items(Newest(habits, following, now), now)
    ensures |r| <= ActivityLimit
    ensures forall i, j :: 0 <= i < j < |r| ==> r[i].updatedAt >= r[j].updatedAt
    ensures forall i :: 0 <= i < |r| ==>
      exists h :: h in habits && IsRecent(h, following, now) && r[i] == ToItem(h, now)
  {
    var top := Newest(habits, following, now);
    forall i | 0 <= i < |top| ensures top[i] in habits && IsRecent(top[i], following, now) {
      assert top[i] in multiset(Recent(habits, following, now));
    }
    forall i, j | 0 <= i < j < |top| ensures top[i].updatedAt >= top[j].updatedAt {
      assert UpdatedAt(top[i]) >= UpdatedAt(top[j]);
    }
    Items(top, now)
  }
}

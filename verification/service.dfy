/**
 The snippet service: create, fetch with renewal, and like with renewal, all
 on one expiring store of snippets keyed by name. Time is an explicit
 argument; the fetch's detached renewal is an explicit later step.
 */
module SnippetService {
  import opened Wrappers
  import opened Clock
  import TtlMap
  import opened Snippets

  /** Seconds a fetch or a like keeps a snippet alive from the moment it happens. */
  const RenewSeconds: int := 30

  /** The renewal window in nanoseconds. */
  const RenewWindow: int := RenewSeconds * NanosPerSecond

  /** The store of snippets. */
  type Repo = TtlMap.Table<Snippet>

  /** The only domain error. */
  datatype Error = NotFound

  /** The store after an operation, and what the operation returned. */
  datatype Reply = Reply(repo: Repo, result: Result<Snippet, Error>)

  /** True when `name` holds a snippet, with a non-empty name, whose deadline has not passed at `now`. */
  predicate Live(repo: Repo, name: string, now: Instant) {
    name in repo && now <= repo[name].expiresAt && repo[name].value.name != ""
  }

  /**
   Stores the snippet under its name with its own deadline and the public URL
   filled in, overwriting any earlier snippet of that name, and returns it with
   the seconds-to-live and the like count cleared. It never fails.
   */
  function Create(repo: Repo, listenAddr: string, sn: Snippet): (r: Reply)
    ensures r.result.Ok?
    ensures r.repo.Keys == repo.Keys + {sn.name}
    ensures forall k :: k in repo && k != sn.name ==> r.repo[k] == repo[k]
    ensures r.repo[sn.name].expiresAt == sn.expiresAt
    ensures r.repo[sn.name].value == sn.(url := listenAddr + "/snippets/" + sn.name)
    ensures r.result.value == r.repo[sn.name].value.(expiresIn := None, likes := None)
  {
    var stored := sn.(url := listenAddr + "/snippets/" + sn.name);
    Reply(TtlMap.Store(repo, sn.name, stored.expiresAt, stored),
          Ok(stored.(expiresIn := None, likes := None)))
  }

  /** Fetches the snippet stored under `name`, as stored; the store is not changed. */
  function Get(repo: Repo, name: string, now: Instant): (r: Result<Snippet, Error>)
    ensures r.Ok? <==> Live(repo, name, now)
    ensures r.Ok? ==> r.value == repo[name].value
  {
    match TtlMap.Load(repo, name, now)
    case None => Err(NotFound)
    case Some(sn) => if sn.name == "" then Err(NotFound) else Ok(sn)
  }

  /**
   The renewal a fetch schedules, run at `now`: it re-stores the copy `sn`
   that the fetch read, with thirty seconds to live from `now`. It does not
   read the store again.
   */
  function GetRenew(repo: Repo, name: string, sn: Snippet, now: Instant): (r: Repo)
    ensures r.Keys == repo.Keys + {name}
    ensures forall k :: k in repo && k != name ==> r[k] == repo[k]
    ensures r[name].expiresAt == now + RenewWindow
    ensures r[name].value == sn.(expiresIn := Some(RenewSeconds), expiresAt := now + RenewWindow)
  {
    var renewed := SetExpiresAt(sn.(expiresIn := Some(RenewSeconds)), now).value;
    TtlMap.Store(repo, name, renewed.expiresAt, renewed)
  }

  /**
   Adds one like to the snippet under `name` (an absent count counts as
   zero, and the count is a 64-bit integer), gives it thirty seconds to live
   from `now`, stores it and returns it.
   */
  function Like(repo: Repo, name: string, now: Instant): (r: Reply)
    ensures r.result.Ok? <==> Live(repo, name, now)
    ensures r.result.Err? ==> r.repo == repo
    ensures r.result.Ok? ==>
              var before := repo[name].value;
              var count := before.likes.GetOr(0);
              var after := r.result.value;
              && after.likes.Some?
              && (IsInt64(count) && count < MaxInt64 ==> after.likes.value == count + 1)
              && (count == MaxInt64 ==> after.likes.value == MinInt64)
              && after == before.(likes := after.likes, expiresIn := Some(RenewSeconds), expiresAt := now + RenewWindow)
    ensures r.result.Ok? ==>
              && r.repo.Keys == repo.Keys
              && r.repo[name] == TtlMap.Entry(now + RenewWindow, r.result.value)
              && forall k :: k in repo && k != name ==> r.repo[k] == repo[k]
  {
    match Get(repo, name, now)
    case Err(e) => Reply(repo, Err(e))
    case Ok(sn) =>
      var n := Wrap64(sn.likes.GetOr(0) + 1);
      var liked := SetExpiresAt(sn.(likes := Some(n), expiresIn := Some(RenewSeconds)), now).value;
      Reply(TtlMap.Store(repo, name, liked.expiresAt, liked), Ok(liked))
  }

  /** Likes the snippet under `name` once at each of `times`, in order. */
  function LikeEach(repo: Repo, name: string, times: seq<Instant>): Repo
    decreases |times|
  {
    if |times| == 0 then repo
    else LikeEach(Like(repo, name, times[0]).repo, name, times[1..])
  }

  /**
   Likes that each arrive within the renewal window of the one before (the
   first before the original deadline) all succeed: the count rises by
   exactly the number of likes, the deadline is thirty seconds after the
   last one, and the name, content and URL stay as they were.
   */
  lemma {:induction false} LikesAccumulate(repo: Repo, name: string, times: seq<Instant>)
    requires name in repo && repo[name].value.name != ""
    requires |times| > 0 ==> times[0] <= repo[name].expiresAt
    requires forall i :: 1 <= i < |times| ==> times[i] <= times[i - 1] + RenewWindow
    requires IsInt64(repo[name].value.likes.GetOr(0))
    requires repo[name].value.likes.GetOr(0) + |times| <= MaxInt64
    ensures var r := LikeEach(repo, name, times);
            && name in r
            && r[name].value.likes == (if |times| == 0 then repo[name].value.likes
                                       else Some(repo[name].value.likes.GetOr(0) + |times|))
            && r[name].value.name == repo[name].value.name
            && r[name].value.snippet == repo[name].value.snippet
            && r[name].value.url == repo[name].value.url
            && (|times| > 0 ==> r[name].expiresAt == times[|times| - 1] + RenewWindow)
    decreases |times|
  {
    if |times| > 0 {
      var first := Like(repo, name, times[0]);
      assert Live(repo, name, times[0]);
      var rest := times[1..];
      forall i | 1 <= i < |rest|
        ensures rest[i] <= rest[i - 1] + RenewWindow
      {
        assert rest[i] == times[i + 1] && rest[i - 1] == times[i];
      }
      assert |rest| > 0 ==> rest[0] == times[1];
      LikesAccumulate(first.repo, name, rest);
      if |rest| > 0 {
        assert rest[|rest| - 1] == times[|times| - 1];
      }
    }
  }

  /** A created snippet can be fetched, with its URL, until its deadline; a re-create replaces it. */
  lemma CreateThenGet(repo: Repo, listenAddr: string, sn: Snippet, now: Instant)
    ensures Get(Create(repo, listenAddr, sn).repo, sn.name, now) ==
              (if now <= sn.expiresAt && sn.name != ""
               then Ok(sn.(url := listenAddr + "/snippets/" + sn.name))
               else Err(NotFound))
  {
  }

  /**
   Sliding renewal: after a successful fetch at `now` and its renewal, the
   snippet stays fetchable up to thirty seconds after `now`, with every field
   but the seconds-to-live and deadline unchanged, and not one instant longer.
   */
  lemma GetRenewSlides(repo: Repo, name: string, now: Instant, later: Instant)
    requires Get(repo, name, now).Ok?
    ensures var renewed := GetRenew(repo, name, Get(repo, name, now).value, now);
            var got := Get(renewed, name, later);
            && (got.Ok? <==> later <= now + RenewWindow)
            && (got.Ok? ==> got.value == repo[name].value.(expiresIn := Some(RenewSeconds), expiresAt := now + RenewWindow))
  {
  }

  /**
   The scenario: a snippet created at 0 s with two seconds to live is fetched
   at 1 s, which renews it to 31 s; it is still there at 3 s and at 31 s, and
   gone one nanosecond later.
   */
  lemma SlidingScenario(listenAddr: string)
    ensures var request := Snippet("", "a", Some(2), 0, "hi", None);
            var created := SetExpiresAt(request, 0).value;
            var repo1 := Create(map[], listenAddr, created).repo;
            var got1 := Get(repo1, "a", 1 * NanosPerSecond);
            && got1.Ok? && got1.value.snippet == "hi"
            && var repo2 := GetRenew(repo1, "a", got1.value, 1 * NanosPerSecond);
            && Get(repo2, "a", 3 * NanosPerSecond).Ok?
            && Get(repo2, "a", 31 * NanosPerSecond).Ok?
            && Get(repo2, "a", 31 * NanosPerSecond + 1) == Err(NotFound)
  {
  }

  /** Any like count, present or not, changes when it is liked. */
  lemma LikeChangesCount(repo: Repo, name: string, now: Instant)
    requires Live(repo, name, now)
    ensures Like(repo, name, now).result.value.likes != repo[name].value.likes
  {
    var count := repo[name].value.likes.GetOr(0);
    var liked := Like(repo, name, now).result.value.likes;
    if repo[name].value.likes.Some? {
      assert liked.value == Wrap64(count + 1);
      if IsInt64(count) {
        assert liked.value != count;
      }
    }
  }

  /**
   The renewal a fetch schedules writes back the copy the fetch read, so a
   like that lands between the fetch and its renewal is undone.
   */
  lemma StaleRenewalLosesLike(repo: Repo, name: string, now: Instant, renewAt: Instant)
    requires Live(repo, name, now)
    ensures var seen := Get(repo, name, now).value;
            var liked := Like(repo, name, now);
            var renewed := GetRenew(liked.repo, name, seen, renewAt);
            && liked.result.Ok?
            && liked.result.value.likes != seen.likes
            && renewed[name].value.likes == seen.likes
  {
    LikeChangesCount(repo, name, now);
  }

  /**
   The renewal a fetch schedules brings back a snippet whose deadline has
   passed by the time the renewal runs.
   */
  lemma StaleRenewalResurrects(repo: Repo, name: string, now: Instant, renewAt: Instant)
    requires Live(repo, name, now)
    requires repo[name].expiresAt < renewAt
    ensures TtlMap.Load(repo, name, renewAt).None?
    ensures TtlMap.Load(GetRenew(repo, name, Get(repo, name, now).value, renewAt), name, renewAt).Some?
  {
  }

  /**
   Renewal that re-reads the store at `now`: it extends whatever is stored
   under `name` if that is still live, and changes nothing otherwise.
   */
  function GetRenewCurrent(repo: Repo, name: string, now: Instant): (r: Repo)
    ensures !Live(repo, name, now) ==> r == repo
    ensures Live(repo, name, now) ==>
              && r.Keys == repo.Keys
              && r[name].expiresAt == now + RenewWindow
              && r[name].value == repo[name].value.(expiresIn := Some(RenewSeconds), expiresAt := now + RenewWindow)
              && forall k :: k in repo && k != name ==> r[k] == repo[k]
  {
    match Get(repo, name, now)
    case Err(_) => repo
    case Ok(current) => GetRenew(repo, name, current, now)
  }

  /** With the re-reading renewal, a like that lands before the renewal is kept. */
  lemma CurrentRenewalKeepsLike(repo: Repo, name: string, now: Instant, renewAt: Instant)
    requires Live(repo, name, now)
    requires now <= renewAt <= now + RenewWindow
    ensures var liked := Like(repo, name, now);
            var renewed := GetRenewCurrent(liked.repo, name, renewAt);
            && liked.result.Ok?
            && renewed[name].value.likes == liked.result.value.likes
            && renewed[name].expiresAt == renewAt + RenewWindow
  {
  }

  /** The re-reading renewal never brings back a snippet that has expired. */
  lemma CurrentRenewalNoResurrection(repo: Repo, name: string, renewAt: Instant)
    requires TtlMap.Load(repo, name, renewAt).None?
    ensures TtlMap.Load(GetRenewCurrent(repo, name, renewAt), name, renewAt).None?
  {
  }
}

/**
 A model of the matcher registry of the feed search sample and of how `Run`
 uses it: a table from feed-type tag to matcher, filled by `Register` at
 start-up, and the per-feed resolution (exact tag, else the "default" tag)
 that decides which matcher each launched worker gets.
 */
module Search {

  /** A feed-type tag, the registry's key. */
  type Tag = string

  /** The reserved tag of the fallback matcher. */
  const DefaultTag: Tag := "default"

  datatype Result<+R, +E> = Success(value: R) | Failure(error: E)

  datatype Outcome<+E> = Pass | Fail(error: E)

  /**
   A matching strategy. Its behaviour lives outside the modelled core; only its
   identity matters here. `Nil` is the nil interface value: it can be
   registered like any other matcher, and it is what a lookup of a missing key
   yields.
   */
  datatype Matcher = Nil | Strategy(name: string)

  /** A feed to search: a name, a location and the type tag used as registry key. */
  datatype Feed = Feed(name: string, uri: string, feedType: Tag)

  /** One launched worker: the matcher it was handed (possibly `Nil`) and the feed it searches. */
  datatype Job = Job(matcher: Matcher, feed: Feed)

  /** The fatal configuration error of registering a tag twice. */
  datatype RegisterError = AlreadyRegistered(feedType: Tag)

  /** The failure reported by the feed source. */
  datatype FeedError = FeedError(message: string)

  /** One call `Register(feedType, matcher)` made during start-up. */
  datatype Registration = Registration(feedType: Tag, matcher: Matcher)

  /** What `Run` does: abort on a feed-retrieval failure, or launch its jobs after adding `waitCount` to the wait group. */
  datatype RunOutcome = Aborted(error: FeedError) | Launched(jobs: seq<Job>, waitCount: nat)

  // ---------------------------------------------------------------------------
  // Registration

  /**
   The effect of one registration on the table: a tag that is already bound is
   refused and nothing changes; otherwise exactly one new binding appears.
   */
  function Insert(matchers: map<Tag, Matcher>, feedType: Tag, matcher: Matcher): (r: Result<map<Tag, Matcher>, RegisterError>)
    ensures r.Failure? <==> feedType in matchers
    ensures r.Failure? ==> r.error == AlreadyRegistered(feedType)
    ensures r.Success? ==> r.value.Keys == matchers.Keys + {feedType} && |r.value| == |matchers| + 1
    ensures r.Success? ==> r.value[feedType] == matcher
    ensures r.Success? ==> forall t :: t in matchers ==> r.value[t] == matchers[t]
  {
    if feedType in matchers then Failure(AlreadyRegistered(feedType))
    else Success(matchers[feedType := matcher])
  }

  /** A start-up sequence of registrations; the first duplicate is fatal, so nothing after it happens. */
  function RegisterAll(matchers: map<Tag, Matcher>, regs: seq<Registration>): (r: Result<map<Tag, Matcher>, RegisterError>)
    ensures r.Success? ==> matchers.Keys <= r.value.Keys && |r.value| == |matchers| + |regs|
    decreases |regs|
  {
    if regs == [] then Success(matchers)
    else
      match Insert(matchers, regs[0].feedType, regs[0].matcher)
      case Failure(e) => Failure(e)
      case Success(next) => RegisterAll(next, regs[1..])
  }

  /** The tags named by a sequence of registrations. */
  function TagsOf(regs: seq<Registration>): (r: set<Tag>)
  {
    set i | 0 <= i < |regs| :: regs[i].feedType
  }

  /** Every registration names a tag that is not yet bound and that no other registration names. */
  ghost predicate FreshTags(matchers: map<Tag, Matcher>, regs: seq<Registration>)
  {
    && (forall i :: 0 <= i < |regs| ==> regs[i].feedType !in matchers)
    && (forall i, j :: 0 <= i < j < |regs| ==> regs[i].feedType != regs[j].feedType)
  }

  /** A registration sequence completes exactly when it never repeats a tag. */
  lemma {:induction false} RegisterAllSucceedsIff(matchers: map<Tag, Matcher>, regs: seq<Registration>)
    ensures RegisterAll(matchers, regs).Success? <==> FreshTags(matchers, regs)
    decreases |regs|
  {
    if regs != [] {
      var head := regs[0];
      match Insert(matchers, head.feedType, head.matcher)
      case Failure(_) =>
        assert !FreshTags(matchers, regs) by { assert regs[0].feedType in matchers; }
      case Success(next) =>
        RegisterAllSucceedsIff(next, regs[1..]);
        if FreshTags(matchers, regs) {
          forall i | 0 <= i < |regs[1..]|
            ensures regs[1..][i].feedType !in next
          {
            assert regs[1..][i] == regs[i + 1];
          }
          forall i, j | 0 <= i < j < |regs[1..]|
            ensures regs[1..][i].feedType != regs[1..][j].feedType
          {
            assert regs[1..][i] == regs[i + 1] && regs[1..][j] == regs[j + 1];
          }
        }
        if FreshTags(next, regs[1..]) {
          forall i | 0 <= i < |regs|
            ensures regs[i].feedType !in matchers
          {
            if i > 0 { assert regs[i] == regs[1..][i - 1]; }
          }
          forall i, j | 0 <= i < j < |regs|
            ensures regs[i].feedType != regs[j].feedType
          {
            assert regs[j] == regs[1..][j - 1];
            if i > 0 { assert regs[i] == regs[1..][i - 1]; }
          }
        }
    }
  }

  /** The tags of a non-empty registration sequence are its first tag and those of the rest. */
  lemma TagsOfCons(regs: seq<Registration>)
    requires regs != []
    ensures TagsOf(regs) == {regs[0].feedType} + TagsOf(regs[1..])
  {
  }

  /**
   Registration only ever adds: after a successful start-up sequence every old
   binding is intact, every registered tag is bound to its matcher, and no
   other tag was added.
   */
  lemma {:induction false} RegisterAllGrows(matchers: map<Tag, Matcher>, regs: seq<Registration>)
    requires RegisterAll(matchers, regs).Success?
    ensures RegisterAll(matchers, regs).value.Keys == matchers.Keys + TagsOf(regs)
    ensures forall t :: t in matchers ==> RegisterAll(matchers, regs).value[t] == matchers[t]
    ensures forall i :: 0 <= i < |regs| ==> RegisterAll(matchers, regs).value[regs[i].feedType] == regs[i].matcher
    decreases |regs|
  {
    if regs != [] {
      var next := Insert(matchers, regs[0].feedType, regs[0].matcher).value;
      var rest := regs[1..];
      assert RegisterAll(matchers, regs) == RegisterAll(next, rest);
      RegisterAllGrows(next, rest);
      TagsOfCons(regs);
      var final := RegisterAll(next, rest).value;
      forall i | 0 <= i < |regs| ensures regs[i].feedType in final && final[regs[i].feedType] == regs[i].matcher {
        if i == 0 {
          assert regs[0].feedType in next;
        } else {
          assert regs[i] == rest[i - 1];
        }
      }
    }
  }

  /**
   A start-up sequence that dies does so at its first clash: some registration
   `k` whose predecessors were all fresh names a tag that is already bound or
   that an earlier registration named, and the fatal error reports that tag.
   */
  lemma {:induction false} RegisterAllFailsAtFirstClash(matchers: map<Tag, Matcher>, regs: seq<Registration>)
    requires RegisterAll(matchers, regs).Failure?
    ensures exists k :: 0 <= k < |regs|
              && FreshTags(matchers, regs[..k])
              && (regs[k].feedType in matchers || regs[k].feedType in TagsOf(regs[..k]))
              && RegisterAll(matchers, regs).error == AlreadyRegistered(regs[k].feedType)
    decreases |regs|
  {
    var head := regs[0];
    match Insert(matchers, head.feedType, head.matcher)
    case Failure(_) =>
      assert FreshTags(matchers, regs[..0]);
    case Success(next) =>
      var rest := regs[1..];
      RegisterAllFailsAtFirstClash(next, rest);
      var k' :| 0 <= k' < |rest|
              && FreshTags(next, rest[..k'])
              && (rest[k'].feedType in next || rest[k'].feedType in TagsOf(rest[..k']))
              && RegisterAll(next, rest).error == AlreadyRegistered(rest[k'].feedType);
      var k := k' + 1;
      assert regs[k] == rest[k'];
      var prefix := regs[..k];
      assert prefix[0] == head && prefix[1..] == rest[..k'];
      // The prefix runs exactly like `head` followed by `rest[..k']`, so it completes.
      RegisterAllSucceedsIff(next, rest[..k']);
      assert RegisterAll(matchers, prefix) == RegisterAll(next, rest[..k']);
      RegisterAllSucceedsIff(matchers, prefix);
      TagsOfCons(prefix);
  }

  /** Once a tag is bound, a second registration of it is refused, whatever the matcher. */
  lemma DuplicateRegistrationRejected(matchers: map<Tag, Matcher>, feedType: Tag, first: Matcher, second: Matcher)
    requires Insert(matchers, feedType, first).Success?
    ensures Insert(Insert(matchers, feedType, first).value, feedType, second) == Failure(AlreadyRegistered(feedType))
  {
  }

  // ---------------------------------------------------------------------------
  // Resolution

  /** The value a Go map lookup yields: the binding, or the nil matcher for a missing key. */
  function Lookup(matchers: map<Tag, Matcher>, feedType: Tag): (r: Matcher)
  {
    if feedType in matchers then matchers[feedType] else Nil
  }

  /**
   The matcher a feed is searched with: the one bound to its own tag whenever
   that tag is bound (even to `Nil`), otherwise whatever "default" looks up to.
   */
  function Resolve(matchers: map<Tag, Matcher>, feed: Feed): (r: Matcher)
    ensures feed.feedType in matchers ==> r == matchers[feed.feedType]
    ensures feed.feedType !in matchers && DefaultTag in matchers ==> r == matchers[DefaultTag]
    ensures r == Nil <==>
              || (feed.feedType in matchers && matchers[feed.feedType] == Nil)
              || (feed.feedType !in matchers && (DefaultTag !in matchers || matchers[DefaultTag] == Nil))
    ensures r != Nil ==> r in matchers.Values
  {
    if feed.feedType in matchers then matchers[feed.feedType]
    else Lookup(matchers, DefaultTag)
  }

  /**
   The workers `Run` launches, in feed order: exactly one per feed, each
   holding the matcher its feed resolves to.
   */
  function ResolveAll(matchers: map<Tag, Matcher>, feeds: seq<Feed>): (r: seq<Job>)
    ensures |r| == |feeds|
    ensures forall i :: 0 <= i < |feeds| ==> r[i] == Job(Resolve(matchers, feeds[i]), feeds[i])
    decreases |feeds|
  {
    if feeds == [] then []
    else [Job(Resolve(matchers, feeds[0]), feeds[0])] + ResolveAll(matchers, feeds[1..])
  }

  /** Resolving a list piecewise gives the same jobs as resolving it whole. */
  lemma {:induction false} ResolveAllAppend(matchers: map<Tag, Matcher>, front: seq<Feed>, back: seq<Feed>)
    ensures ResolveAll(matchers, front + back) == ResolveAll(matchers, front) + ResolveAll(matchers, back)
    decreases |front|
  {
    if front != [] {
      assert (front + back)[1..] == front[1..] + back;
      ResolveAllAppend(matchers, front[1..], back);
    }
  }

  /** With "default" bound and no tag bound to `Nil`, no worker is ever handed the nil matcher. */
  lemma ResolveAllTotal(matchers: map<Tag, Matcher>, feeds: seq<Feed>)
    requires DefaultTag in matchers && Nil !in matchers.Values
    ensures forall j :: j in ResolveAll(matchers, feeds) ==> j.matcher != Nil && j.feed in feeds
  {
  }

  /**
   A tag bound to `Nil` counts as bound: its feeds get the nil matcher and never
   fall back to "default", whatever "default" is bound to.
   */
  lemma NilBindingSkipsDefault(matchers: map<Tag, Matcher>, feed: Feed)
    requires feed.feedType in matchers && matchers[feed.feedType] == Nil
    ensures Resolve(matchers, feed) == Nil
    ensures Insert(matchers, feed.feedType, Nil).Failure?
  {
  }

  /**
   A successful registration makes feeds of that tag resolve to the new
   matcher, and leaves the resolution of every feed whose own tag was already
   bound unchanged; unless the new tag is "default", feeds of other tags are
   unaffected too.
   */
  lemma InsertThenResolve(matchers: map<Tag, Matcher>, feedType: Tag, matcher: Matcher, feed: Feed)
    requires Insert(matchers, feedType, matcher).Success?
    ensures feed.feedType == feedType ==> Resolve(Insert(matchers, feedType, matcher).value, feed) == matcher
    ensures feed.feedType in matchers ==> Resolve(Insert(matchers, feedType, matcher).value, feed) == Resolve(matchers, feed)
    ensures feedType != DefaultTag && feed.feedType != feedType ==>
              Resolve(Insert(matchers, feedType, matcher).value, feed) == Resolve(matchers, feed)
  {
  }

  // ---------------------------------------------------------------------------
  // The registry object

  /** The process's table of matchers, owned explicitly instead of living in a package variable. */
  class Registry {
    var matchers: map<Tag, Matcher>

    /** An empty table. */
    constructor ()
      ensures matchers == map[]
    {
      matchers := map[];
    }

    /**
     Binds `feedType` to `matcher`. A tag that is already bound is fatal in the
     source; here it is reported and the table is left as it was.
     */
    method Register(feedType: Tag, matcher: Matcher) returns (outcome: Outcome<RegisterError>)
      modifies this
      ensures feedType in old(matchers) ==> outcome == Fail(AlreadyRegistered(feedType)) && matchers == old(matchers)
      ensures feedType !in old(matchers) ==> outcome == Pass && matchers == Insert(old(matchers), feedType, matcher).value
    {
      if feedType in matchers {
        return Fail(AlreadyRegistered(feedType));
      }
      matchers := matchers[feedType := matcher];
      outcome := Pass;
    }

    /**
     The sequential content of `Run`: abort when the feed source failed;
     otherwise set the wait-group count to the number of feeds and launch one
     job per feed, in order, each with the matcher its feed resolves to.
     */
    method Run(retrieved: Result<seq<Feed>, FeedError>) returns (r: RunOutcome)
      ensures retrieved.Failure? <==> r.Aborted?
      ensures retrieved.Failure? ==> r.error == retrieved.error
      ensures retrieved.Success? ==> r.waitCount == |retrieved.value| == |r.jobs|
      ensures retrieved.Success? ==> r.jobs == ResolveAll(matchers, retrieved.value)
    {
      if retrieved.Failure? {
        return Aborted(retrieved.error);
      }
      var feeds := retrieved.value;
      var waitCount := |feeds|;
      var jobs: seq<Job> := [];
      for i := 0 to |feeds|
        invariant jobs == ResolveAll(matchers, feeds[..i])
      {
        var matcher := Resolve(matchers, feeds[i]);
        ResolveAllAppend(matchers, feeds[..i], [feeds[i]]);
        assert feeds[..i + 1] == feeds[..i] + [feeds[i]];
        jobs := jobs + [Job(matcher, feeds[i])];
      }
      assert feeds[..|feeds|] == feeds;
      r := Launched(jobs, waitCount);
    }
  }
}

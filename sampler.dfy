/**
 * The weekly walk over the history of `develop`, newest commit first: a
 * commit is sampled when its time is strictly before the cutoff, and each
 * sample moves the cutoff back by exactly one week. For a sampled commit the
 * tree is checked out and searched twice, for `inlineCallback` and for
 * `async def`; the samples are the rows of the output document.
 */
module Sampler {
  import opened Search
  import opened Calendar

  /** A commit as the walk sees it: its hash and its commit time on the local clock. */
  datatype Commit = Commit(hash: string, time: int)

  /** One row of the output: the commit, and the two search results on its tree. */
  datatype Sample = Sample(hash: string, time: int, deferred: SearchResult, asyncDefs: SearchResult)

  /** The result of the walk: the rows in walk order, and where the cutoff ended. */
  datatype Walk = Walk(samples: seq<Sample>, cutoff: int)

  const DeferredPattern: string := "inlineCallback"
  const AsyncPattern: string := "async def"

  /** What `grep -r pattern synapse` prints, line by line, on the tree of a commit. */
  type Grep = (Commit, string) -> seq<string>

  /** The commits the walk samples, in walk order, starting from `cutoff`. */
  function Selection(commits: seq<Commit>, cutoff: int): seq<Commit>
  {
    if commits == [] then []
    else if commits[0].time < cutoff then [commits[0]] + Selection(commits[1..], cutoff - SecondsPerWeek)
    else Selection(commits[1..], cutoff)
  }

  /** The cutoff once the walk has passed all of `commits`, starting from `cutoff`. */
  function CutoffAfter(commits: seq<Commit>, cutoff: int): int
  {
    if commits == [] then cutoff
    else if commits[0].time < cutoff then CutoffAfter(commits[1..], cutoff - SecondsPerWeek)
    else CutoffAfter(commits[1..], cutoff)
  }

  /** The row for a sampled commit; the `inlineCallback` search runs first, so its failure wins. */
  function SampleOf(commit: Commit, grep: Grep): Result<Sample>
  {
    match SearchSpec(grep(commit, DeferredPattern))
    case Err(e) => Err(e)
    case Ok(deferred) =>
      match SearchSpec(grep(commit, AsyncPattern))
      case Err(e) => Err(e)
      case Ok(asyncDefs) => Ok(Sample(commit.hash, commit.time, deferred, asyncDefs))
  }

  /** `a` is `b` with some elements left out and the rest kept in order. */
  predicate Subsequence<T(==)>(a: seq<T>, b: seq<T>)
  {
    if a == [] then true
    else if b == [] then false
    else (a[0] == b[0] && Subsequence(a[1..], b[1..])) || Subsequence(a, b[1..])
  }

  /** Walking two stretches of history one after the other is walking the second from where the first left the cutoff. */
  lemma {:induction false} SelectionAppend(a: seq<Commit>, b: seq<Commit>, cutoff: int)
    ensures Selection(a + b, cutoff) == Selection(a, cutoff) + Selection(b, CutoffAfter(a, cutoff))
    ensures CutoffAfter(a + b, cutoff) == CutoffAfter(b, CutoffAfter(a, cutoff))
  {
    if a == [] {
      assert a + b == b;
    } else {
      assert (a + b)[0] == a[0];
      assert (a + b)[1..] == a[1..] + b;
      if a[0].time < cutoff {
        SelectionAppend(a[1..], b, cutoff - SecondsPerWeek);
      } else {
        SelectionAppend(a[1..], b, cutoff);
      }
    }
  }

  /**
   * The strict-below rule: the next commit is sampled exactly when its time is
   * strictly before the cutoff in force; sampling it moves the cutoff back one
   * week, skipping it leaves the cutoff where it was.
   */
  lemma SelectionSnoc(commits: seq<Commit>, next: Commit, cutoff: int)
    ensures var now := CutoffAfter(commits, cutoff);
      && Selection(commits + [next], cutoff)
         == Selection(commits, cutoff) + (if next.time < now then [next] else [])
      && CutoffAfter(commits + [next], cutoff)
         == (if next.time < now then now - SecondsPerWeek else now)
  {
    SelectionAppend(commits, [next], cutoff);
    var now := CutoffAfter(commits, cutoff);
    assert [next][1..] == [];
  }

  /** Each sample moves the cutoff back by exactly one week, and nothing else moves it. */
  lemma {:induction false} CutoffSteps(commits: seq<Commit>, cutoff: int)
    ensures CutoffAfter(commits, cutoff) == cutoff - SecondsPerWeek * |Selection(commits, cutoff)|
  {
    if commits != [] {
      if commits[0].time < cutoff {
        CutoffSteps(commits[1..], cutoff - SecondsPerWeek);
      } else {
        CutoffSteps(commits[1..], cutoff);
      }
    }
  }

  /** The cutoff never increases as the walk goes on. */
  lemma CutoffNeverIncreases(commits: seq<Commit>, cutoff: int, i: nat, j: nat)
    requires i <= j <= |commits|
    ensures CutoffAfter(commits[..j], cutoff) <= CutoffAfter(commits[..i], cutoff) <= cutoff
  {
    var a, b := commits[..i], commits[i..j];
    assert commits[..j] == a + b;
    SelectionAppend(a, b, cutoff);
    CutoffSteps(a, cutoff);
    CutoffSteps(b, CutoffAfter(a, cutoff));
  }

  /** The samples are commits of the history in the history's own order, none repeated or invented. */
  lemma {:induction false} SelectionIsSubsequence(commits: seq<Commit>, cutoff: int)
    ensures Subsequence(Selection(commits, cutoff), commits)
  {
    if commits != [] {
      var sel := Selection(commits, cutoff);
      if commits[0].time < cutoff {
        SelectionIsSubsequence(commits[1..], cutoff - SecondsPerWeek);
        assert sel[0] == commits[0] && sel[1..] == Selection(commits[1..], cutoff - SecondsPerWeek);
      } else {
        SelectionIsSubsequence(commits[1..], cutoff);
        if sel != [] {
          assert Subsequence(sel, commits[1..]);
        }
      }
    }
  }

  /** A subsequence is never longer than the sequence it is taken from. */
  lemma {:induction false} SubsequenceLength<T>(a: seq<T>, b: seq<T>)
    requires Subsequence(a, b)
    ensures |a| <= |b|
  {
    if a != [] {
      if a[0] == b[0] && Subsequence(a[1..], b[1..]) {
        SubsequenceLength(a[1..], b[1..]);
      } else {
        SubsequenceLength(a, b[1..]);
      }
    }
  }

  /** There are never more samples than commits. */
  lemma SelectionLength(commits: seq<Commit>, cutoff: int)
    ensures |Selection(commits, cutoff)| <= |commits|
  {
    SelectionIsSubsequence(commits, cutoff);
    SubsequenceLength(Selection(commits, cutoff), commits);
  }

  /** The `k`-th sample lies strictly before the cutoff moved back `k` weeks. */
  lemma {:induction false} SelectionBeforeWeeklyCutoffs(commits: seq<Commit>, cutoff: int, k: nat)
    requires k < |Selection(commits, cutoff)|
    ensures Selection(commits, cutoff)[k].time < cutoff - SecondsPerWeek * k
  {
    if commits[0].time < cutoff {
      if k > 0 {
        SelectionBeforeWeeklyCutoffs(commits[1..], cutoff - SecondsPerWeek, k - 1);
      }
    } else {
      SelectionBeforeWeeklyCutoffs(commits[1..], cutoff, k);
    }
  }

  /**
   * Because a sample moves the cutoff back only one week however far below
   * it the commit was, a history with a gap yields several samples from a
   * single calendar week.
   */
  lemma TwoSamplesInOneWeek(monday: int, a: Commit, b: Commit)
    requires IsMondayMidnight(monday)
    requires a.time == monday - 3 * SecondsPerWeek + 7200
    requires b.time == monday - 3 * SecondsPerWeek + 3600
    ensures Selection([a, b], monday) == [a, b]
    ensures WeekStart(a.time) == WeekStart(b.time)
  {
    var w := monday - 3 * SecondsPerWeek;
    assert [a, b][1..] == [b];
    assert [b][1..] == [];
    assert Selection([b], monday - SecondsPerWeek) == [b];
    assert [a] + [b] == [a, b];
    DayOfMidnight(DayNumber(monday) - 21);
    assert w == (DayNumber(monday) - 21) * SecondsPerDay;
    assert Weekday(w) == 0;
    WeekStartUnique(a.time, w);
    WeekStartUnique(b.time, w);
  }

  /**
   * The sampling loop: walk the commits newest first; every commit strictly
   * before the cutoff moves the cutoff back a week, has its tree searched for
   * both patterns and gets a row. A failing search aborts the walk.
   */
  method WalkHistory(commits: seq<Commit>, start: int, grep: Grep) returns (r: Result<Walk>)
    ensures var sel := Selection(commits, start);
      r.Ok? <==> forall k :: 0 <= k < |sel| ==> SampleOf(sel[k], grep).Ok?
    ensures var sel := Selection(commits, start);
      r.Ok? ==> && |r.value.samples| == |sel|
                && (forall k :: 0 <= k < |sel| ==> SampleOf(sel[k], grep) == Ok(r.value.samples[k]))
                && r.value.cutoff == CutoffAfter(commits, start)
    ensures var sel := Selection(commits, start);
      r.Err? ==> exists k :: && 0 <= k < |sel|
                             && SampleOf(sel[k], grep) == Err(r.error)
                             && forall j :: 0 <= j < k ==> SampleOf(sel[j], grep).Ok?
  {
    var day := start;
    var data: seq<Sample> := [];
    var i := 0;
    while i < |commits|
      invariant 0 <= i <= |commits|
      invariant day == CutoffAfter(commits[..i], start)
      invariant |data| == |Selection(commits[..i], start)|
      invariant forall k :: 0 <= k < |data| ==> SampleOf(Selection(commits[..i], start)[k], grep) == Ok(data[k])
    {
      var commit := commits[i];
      ghost var before := Selection(commits[..i], start);
      assert commits[..i + 1] == commits[..i] + [commit];
      SelectionSnoc(commits[..i], commit, start);
      if commit.time < day {
        day := day - SecondsPerWeek;
        var deferred := Aggregate(grep(commit, DeferredPattern));
        if deferred.Err? {
          assert SampleOf(commit, grep) == Err(deferred.error);
          WalkFails(commits, start, i);
          FirstFailure(commits, start, grep, before, commit, deferred.error);
          return Err(deferred.error);
        }
        var asyncDefs := Aggregate(grep(commit, AsyncPattern));
        if asyncDefs.Err? {
          assert SampleOf(commit, grep) == Err(asyncDefs.error);
          WalkFails(commits, start, i);
          FirstFailure(commits, start, grep, before, commit, asyncDefs.error);
          return Err(asyncDefs.error);
        }
        data := data + [Sample(commit.hash, commit.time, deferred.value, asyncDefs.value)];
      }
      i := i + 1;
    }
    assert commits[..i] == commits;
    return Ok(Walk(data, day));
  }

  /** When the walk is stopped by a sampled commit, the samples so far are the first ones of the whole walk. */
  lemma WalkFails(commits: seq<Commit>, start: int, i: nat)
    requires i < |commits| && commits[i].time < CutoffAfter(commits[..i], start)
    ensures var sel := Selection(commits, start);
      var before := Selection(commits[..i], start);
      |before| < |sel| && sel[..|before| + 1] == before + [commits[i]]
  {
    var a, b := commits[..i], commits[i..];
    assert commits == a + b;
    SelectionAppend(a, b, start);
    assert b == [commits[i]] + b[1..];
  }

  /** A walk whose samples so far all succeed and whose next sample fails reports that failure. */
  lemma FirstFailure(commits: seq<Commit>, start: int, grep: Grep, before: seq<Commit>, next: Commit, e: SearchError)
    requires var sel := Selection(commits, start);
      |before| < |sel| && sel[..|before| + 1] == before + [next]
    requires forall k :: 0 <= k < |before| ==> SampleOf(before[k], grep).Ok?
    requires SampleOf(next, grep) == Err(e)
    ensures var sel := Selection(commits, start);
      exists k :: && 0 <= k < |sel|
                  && SampleOf(sel[k], grep) == Err(e)
                  && forall j :: 0 <= j < k ==> SampleOf(sel[j], grep).Ok?
  {
    var sel := Selection(commits, start);
    var k := |before|;
    assert sel[k] == (before + [next])[k];
    forall j | 0 <= j < k ensures SampleOf(sel[j], grep).Ok? {
      assert sel[j] == (sel[..k + 1])[j] == before[j];
    }
  }

  /**
   * The script from start to end on one reading of the clock and one history:
   * the cutoff starts at the Monday midnight of the current week, then the
   * walk runs; its rows are what the script writes out.
   */
  method Run(now: int, commits: seq<Commit>, grep: Grep) returns (r: Result<seq<Sample>>)
    ensures var sel := Selection(commits, WeekStart(now));
      r.Ok? <==> forall k :: 0 <= k < |sel| ==> SampleOf(sel[k], grep).Ok?
    ensures var sel := Selection(commits, WeekStart(now));
      r.Ok? ==> && |r.value| == |sel|
                && forall k :: 0 <= k < |sel| ==> SampleOf(sel[k], grep) == Ok(r.value[k])
    ensures var sel := Selection(commits, WeekStart(now));
      r.Err? ==> exists k :: && 0 <= k < |sel|
                             && SampleOf(sel[k], grep) == Err(r.error)
                             && forall j :: 0 <= j < k ==> SampleOf(sel[j], grep).Ok?
  {
    var day := StartOfWeek(now);
    var walk := WalkHistory(commits, day, grep);
    match walk
    case Err(e) => return Err(e);
    case Ok(w) => return Ok(w.samples);
  }
}

/**
 * The link between the accounts' walks and the digest: what the channel
 * delivers is the walks' repositories in some order, and those meet the
 * digest's precondition.
 */
module Pipeline {
  import opened Wrappers
  import opened Graphql
  import Github
  import opened Digest

  /** Everything the accounts' walks sent, one walk after another; `fetches[i]` is account `i`'s page source. */
  function SentBy(fetches: seq<Option<string> -> Github.Fetch>, bounds: seq<nat>): seq<Repository>
    requires |fetches| == |bounds|
    requires forall i :: 0 <= i < |fetches| ==> Github.EndsWithin(fetches[i], None, bounds[i])
  {
    if fetches == [] then []
    else Github.Paginate(fetches[0], None, bounds[0]).sent + SentBy(fetches[1..], bounds[1..])
  }

  lemma {:induction false} SentByForwarded(fetches: seq<Option<string> -> Github.Fetch>, bounds: seq<nat>)
    requires |fetches| == |bounds|
    requires forall i :: 0 <= i < |fetches| ==> Github.EndsWithin(fetches[i], None, bounds[i])
    ensures forall x :: x in SentBy(fetches, bounds) ==> Github.IsForwarded(x)
  {
    if fetches != [] {
      Github.PaginateSendsOnlyForwarded(fetches[0], None, bounds[0]);
      SentByForwarded(fetches[1..], bounds[1..]);
    }
  }

  /**
   * Whatever order the channel delivers the walks' repositories in, each one
   * has a latest release that is not a prerelease: the walks establish the
   * digest's `AllReleased` precondition, so the comparator's `unreachable!`
   * arm is never taken and no digest entry is a prerelease.
   */
  lemma CollectedReleased(fetches: seq<Option<string> -> Github.Fetch>, bounds: seq<nat>, collected: seq<Repository>)
    requires |fetches| == |bounds|
    requires forall i :: 0 <= i < |fetches| ==> Github.EndsWithin(fetches[i], None, bounds[i])
    requires multiset(collected) == multiset(SentBy(fetches, bounds))
    ensures AllReleased(collected)
    ensures forall x :: x in collected ==> !x.latestRelease.value.isPrerelease
  {
    SentByForwarded(fetches, bounds);
    forall x | x in collected ensures Github.IsForwarded(x) {
      assert x in multiset(SentBy(fetches, bounds));
    }
  }
}

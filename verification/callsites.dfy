/**
 Per-callsite isolation.

 Every expansion of a debounce or once macro declares its own static cell,
 so two callsites never share a gate, even on the same source line. Here a
 callsite is an abstract key, and the process-wide collection of cells is a
 map from keys to gate states; a key not yet in the map is a cell whose lazy
 initialiser has not run, which reads as `Unused`.
 */
module Callsites {
  import opened Gate
  import opened Trace

  /** The gate state of every callsite reached so far. */
  type Sites<K> = map<K, State>

  /** The state of callsite `k`'s cell: `Unused` until its first call. */
  function Lookup<K>(sites: Sites<K>, k: K): State
  {
    if k in sites then sites[k] else Unused
  }

  /** One invocation, at callsite `site`. */
  datatype SiteCall<K> = SiteCall(site: K, call: Call)

  /** What one invocation at some callsite does to the whole collection of cells. */
  datatype Invoked<K> = Invoked(out: Outcome, sites: Sites<K>)

  /**
   An invocation at callsite `sc.site`: the site's own gate decides, the
   site's cell is created if this is its first use, and every other
   callsite's state is left exactly as it was.
   */
  function Invoke<K>(sites: Sites<K>, sc: SiteCall<K>): (r: Invoked<K>)
    ensures r.out == Step(Lookup(sites, sc.site), sc.call)
    ensures Lookup(r.sites, sc.site) == r.out.next
    ensures r.sites.Keys == sites.Keys + {sc.site}
    ensures forall k :: k in r.sites && k != sc.site ==> k in sites && r.sites[k] == sites[k]
  {
    var o := Step(Lookup(sites, sc.site), sc.call);
    Invoked(o, sites[sc.site := o.next])
  }

  /** The outcome of every call of an interleaving of calls at many callsites. */
  function RunSites<K>(sites: Sites<K>, calls: seq<SiteCall<K>>): (outs: seq<Outcome>)
    ensures |outs| == |calls|
    decreases |calls|
  {
    if |calls| == 0 then []
    else
      var r := Invoke(sites, calls[0]);
      [r.out] + RunSites(r.sites, calls[1..])
  }

  /** Every cell's contents after an interleaving of calls. */
  function SitesAfter<K>(sites: Sites<K>, calls: seq<SiteCall<K>>): Sites<K>
    decreases |calls|
  {
    if |calls| == 0 then sites else SitesAfter(Invoke(sites, calls[0]).sites, calls[1..])
  }

  /** The calls of an interleaving that reach callsite `k`, in order. */
  function Project<K(==)>(calls: seq<SiteCall<K>>, k: K): seq<Call>
    decreases |calls|
  {
    if |calls| == 0 then []
    else if calls[0].site == k then [calls[0].call] + Project(calls[1..], k)
    else Project(calls[1..], k)
  }

  /** The outcomes, among `outs`, of the calls that reach callsite `k`. */
  function Select<K(==)>(calls: seq<SiteCall<K>>, outs: seq<Outcome>, k: K): seq<Outcome>
    requires |outs| == |calls|
    decreases |calls|
  {
    if |calls| == 0 then []
    else if calls[0].site == k then [outs[0]] + Select(calls[1..], outs[1..], k)
    else Select(calls[1..], outs[1..], k)
  }

  /**
   A callsite sees only its own calls: in any interleaving, the outcomes at
   callsite `k` and its final state are those of running `k`'s gate alone on
   `k`'s calls, whatever happens at the other callsites.
   */
  lemma {:induction false} SiteSeesOnlyItsOwnCalls<K>(sites: Sites<K>, calls: seq<SiteCall<K>>, k: K)
    ensures Select(calls, RunSites(sites, calls), k) == Run(Lookup(sites, k), Project(calls, k))
    ensures Lookup(SitesAfter(sites, calls), k) == Final(Lookup(sites, k), Project(calls, k))
    decreases |calls|
  {
    if |calls| > 0 {
      var r := Invoke(sites, calls[0]);
      var outs := RunSites(sites, calls);
      assert outs == [r.out] + RunSites(r.sites, calls[1..]);
      assert outs[1..] == RunSites(r.sites, calls[1..]);
      SiteSeesOnlyItsOwnCalls(r.sites, calls[1..], k);
      if calls[0].site == k {
        var p := Project(calls, k);
        assert p == [calls[0].call] + Project(calls[1..], k);
        assert p[0] == calls[0].call && p[1..] == Project(calls[1..], k);
      }
    }
  }

  /**
   Two callsites that start alike and are invoked with the same calls, in
   any interleaving, make the same decisions: neither affects the other.
   */
  lemma SitesWithSameCallsAgree<K>(sites: Sites<K>, calls: seq<SiteCall<K>>, k1: K, k2: K)
    requires Lookup(sites, k1) == Lookup(sites, k2)
    requires Project(calls, k1) == Project(calls, k2)
    ensures Select(calls, RunSites(sites, calls), k1) == Select(calls, RunSites(sites, calls), k2)
    ensures Lookup(SitesAfter(sites, calls), k1) == Lookup(SitesAfter(sites, calls), k2)
  {
    SiteSeesOnlyItsOwnCalls(sites, calls, k1);
    SiteSeesOnlyItsOwnCalls(sites, calls, k2);
  }

  /** A callsite that no call reaches keeps its state through any interleaving. */
  lemma UntouchedSiteKeepsState<K>(sites: Sites<K>, calls: seq<SiteCall<K>>, k: K)
    requires forall i :: 0 <= i < |calls| ==> calls[i].site != k
    ensures Lookup(SitesAfter(sites, calls), k) == Lookup(sites, k)
    ensures Select(calls, RunSites(sites, calls), k) == []
  {
    NotReachedProjectsEmpty(calls, k);
    SiteSeesOnlyItsOwnCalls(sites, calls, k);
  }

  /** No calls reach a callsite that none of them names. */
  lemma {:induction false} NotReachedProjectsEmpty<K>(calls: seq<SiteCall<K>>, k: K)
    requires forall i :: 0 <= i < |calls| ==> calls[i].site != k
    ensures Project(calls, k) == []
    decreases |calls|
  {
    if |calls| > 0 {
      NotReachedProjectsEmpty(calls[1..], k);
    }
  }

  /**
   Two `*_once!` invocations written on two different lines are two
   callsites with two cells, so each is the first call at its own callsite
   and both emit.
   */
  lemma TwoOnceCallsitesBothEmit<K>(k1: K, k2: K, t0: Timestamp, t1: Timestamp)
    requires k1 != k2
    ensures Emits(RunSites(map[], [SiteCall(k1, OnceCall(t0, true)), SiteCall(k2, OnceCall(t1, true))]))
            == [true, true]
  {
  }
}

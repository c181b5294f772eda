/**
 The DNS decision logic: reading A and CNAME answers out of a reply
 (`DoDNSResolve`), the three-try reachability test of a nameserver
 (`CheckNSConnection` / `checkNameserverConnection`), pruning the nameserver
 pool (`RemoveUnconnectedNS` / `checkNameserversConnection`) and the two
 wildcard probes (`CheckDomainWildcard` in the library tree, `checkWildcard`
 in the command tree).

 The network is an oracle. A reply is an `Exchange`: the answer section
 (resource records of type A, CNAME or anything else, section 3.2.2 of
 RFC 1035) or a failed exchange. `reach(ns, k)` says whether the `k`-th
 exchange with nameserver `ns` succeeds.
 */
module Dns {
  import opened Common

  /** A resource record of the answer section, by type. */
  datatype RR = A(addr: string) | Cname(target: string) | OtherRR(rtype: nat)

  /** What one `Exchange` call returns. */
  datatype Exchange = Answered(answer: seq<RR>) | ExchangeFailed

  /** `DNSResolveResult`: the queried name and its A and CNAME data. */
  datatype DnsResult = DnsResult(domain: string, aRecord: seq<string>, cnameRecord: seq<string>)

  /** The addresses of the A records, in answer order. */
  function Addresses(answer: seq<RR>): (addrs: seq<string>)
    ensures |addrs| <= |answer|
  {
    if answer == [] then []
    else (if answer[0].A? then [answer[0].addr] else []) + Addresses(answer[1..])
  }

  /** The targets of the CNAME records, in answer order. */
  function Targets(answer: seq<RR>): (targets: seq<string>)
    ensures |targets| <= |answer|
  {
    if answer == [] then []
    else (if answer[0].Cname? then [answer[0].target] else []) + Targets(answer[1..])
  }

  /** The answer loop of `DoDNSResolve`. */
  function Extract(domain: string, answer: seq<RR>): (r: DnsResult)
    ensures r.domain == domain
    ensures |r.aRecord| + |r.cnameRecord| <= |answer|
  {
    ExtractCount(answer);
    DnsResult(domain, Addresses(answer), Targets(answer))
  }

  lemma {:induction false} ExtractCount(answer: seq<RR>)
    ensures |Addresses(answer)| + |Targets(answer)| <= |answer|
  {
    if answer != [] {
      ExtractCount(answer[1..]);
    }
  }

  /** Records are read one at a time: the data of `a + b` is that of `a`
      followed by that of `b`, so each list keeps answer order. */
  lemma {:induction false} ExtractAppend(a: seq<RR>, b: seq<RR>)
    ensures Addresses(a + b) == Addresses(a) + Addresses(b)
    ensures Targets(a + b) == Targets(a) + Targets(b)
  {
    if a == [] {
      assert a + b == b;
    } else {
      assert (a + b)[0] == a[0];
      assert (a + b)[1..] == a[1..] + b;
      ExtractAppend(a[1..], b);
    }
  }

  /** An address is reported exactly when an A record carries it, a target
      exactly when a CNAME record does. */
  lemma {:induction false} ExtractMembers(answer: seq<RR>, x: string)
    ensures x in Addresses(answer) <==> A(x) in answer
    ensures x in Targets(answer) <==> Cname(x) in answer
  {
    if answer != [] {
      ExtractMembers(answer[1..], x);
      assert answer == [answer[0]] + answer[1..];
    }
  }

  /** Records of any other type change nothing. */
  lemma OtherRecordsIgnored(answer: seq<RR>, rtype: nat)
    ensures Extract("", answer + [OtherRR(rtype)]).aRecord == Addresses(answer)
    ensures Extract("", answer + [OtherRR(rtype)]).cnameRecord == Targets(answer)
  {
    ExtractAppend(answer, [OtherRR(rtype)]);
    assert [OtherRR(rtype)][1..] == [];
  }

  /** The emit rule shared by the resolution worker, the result sink and the
      wildcard probes: at least one A or CNAME record. */
  predicate HasRecord(r: DnsResult) {
    |r.aRecord| != 0 || |r.cnameRecord| != 0
  }

  /** A reply yields a record exactly when its answer holds an A or a CNAME. */
  lemma HasRecordOfAnswer(domain: string, answer: seq<RR>)
    ensures HasRecord(Extract(domain, answer)) <==>
            exists i | 0 <= i < |answer| :: answer[i].A? || answer[i].Cname?
  {
    if exists i | 0 <= i < |answer| :: answer[i].A? || answer[i].Cname? {
      var i :| 0 <= i < |answer| && (answer[i].A? || answer[i].Cname?);
      if answer[i].A? {
        ExtractMembers(answer, answer[i].addr);
      } else {
        ExtractMembers(answer, answer[i].target);
      }
    } else {
      if HasRecord(Extract(domain, answer)) {
        if |Addresses(answer)| != 0 {
          ExtractMembers(answer, Addresses(answer)[0]);
        } else {
          ExtractMembers(answer, Targets(answer)[0]);
        }
      }
    }
  }

  /** `DoDNSResolve`: the nameserver is `pool[pick]` (`pick` is what
      `rand.Intn(len(pool))` returned, so the pool must not be empty) and
      `reply(ns)` is what `ns` answers. A failed exchange gives no result. */
  function DoDnsResolve(domain: string, pool: seq<string>, pick: nat, reply: string -> Exchange)
    : (r: Option<DnsResult>)
    requires pick < |pool|
    ensures r.None? <==> reply(pool[pick]).ExchangeFailed?
    ensures r.Some? ==> r.value.domain == domain
    ensures r.Some? ==> forall x :: x in r.value.aRecord <==> A(x) in reply(pool[pick]).answer
    ensures r.Some? ==> forall x :: x in r.value.cnameRecord <==> Cname(x) in reply(pool[pick]).answer
    ensures r.Some? ==> r.value.aRecord == Addresses(reply(pool[pick]).answer)
                        && r.value.cnameRecord == Targets(reply(pool[pick]).answer)
  {
    var ns := pool[pick];
    match reply(ns)
    case ExchangeFailed => None
    case Answered(answer) =>
      assert forall x :: x in Addresses(answer) <==> A(x) in answer by {
        forall x { ExtractMembers(answer, x); }
      }
      assert forall x :: x in Targets(answer) <==> Cname(x) in answer by {
        forall x { ExtractMembers(answer, x); }
      }
      Some(Extract(domain, answer))
  }

  // ---------------------------------------------------------------------------
  // Nameserver reachability
  //
  // `reach(ns, i, k)` is whether the k-th exchange succeeds when the check of
  // pool entry i, server `ns`, makes it. Every entry is checked afresh, so a
  // server listed twice may answer one check and not the other.

  /** The reference definition: one of the three tries succeeds. */
  predicate Reachable(ns: string, i: nat, reach: (string, nat, nat) -> bool) {
    reach(ns, i, 0) || reach(ns, i, 1) || reach(ns, i, 2)
  }

  /** Some entry of the pool answers its check. */
  predicate SomeAnswers(pool: seq<string>, reach: (string, nat, nat) -> bool) {
    exists i | 0 <= i < |pool| :: Reachable(pool[i], i, reach)
  }

  /** `CheckNSConnection` / `checkNameserverConnection` on pool entry `i`:
      up to three exchanges, stopping at the first that succeeds. */
  method CheckNsConnection(ns: string, i: nat, reach: (string, nat, nat) -> bool) returns (ok: bool, tries: nat)
    ensures ok == Reachable(ns, i, reach)
    ensures 1 <= tries <= 3
    ensures ok ==> reach(ns, i, tries - 1) && forall k | 0 <= k < tries - 1 :: !reach(ns, i, k)
    ensures !ok ==> tries == 3
  {
    var left := 3;
    tries := 0;
    while left > 0
      invariant 0 <= left <= 3 && tries == 3 - left
      invariant forall k | 0 <= k < tries :: !reach(ns, i, k)
    {
      tries := tries + 1;
      if reach(ns, i, tries - 1) {
        return true, tries;
      }
      left := left - 1;
    }
    ok := false;
  }

  /** The entries that answer their check, in pool order. */
  function Connected(pool: seq<string>, reach: (string, nat, nat) -> bool): (r: seq<string>)
    ensures |r| <= |pool|
  {
    if pool == [] then []
    else
      var n := |pool| - 1;
      Connected(pool[..n], reach) + (if Reachable(pool[n], n, reach) then [pool[n]] else [])
  }

  /** The entries that do not, in pool order. */
  function Unconnected(pool: seq<string>, reach: (string, nat, nat) -> bool): (r: seq<string>)
    ensures |r| <= |pool|
  {
    if pool == [] then []
    else
      var n := |pool| - 1;
      Unconnected(pool[..n], reach) + (if Reachable(pool[n], n, reach) then [] else [pool[n]])
  }

  /** `RemoveUnconnectedNS` / `checkNameserversConnection`: test every entry
      in order; the pool becomes `connected`. */
  method RemoveUnconnectedNs(pool: seq<string>, reach: (string, nat, nat) -> bool)
    returns (unconnected: seq<string>, connected: seq<string>)
    ensures connected == Connected(pool, reach)
    ensures unconnected == Unconnected(pool, reach)
  {
    connected := [];
    unconnected := [];
    var i := 0;
    while i < |pool|
      invariant i <= |pool|
      invariant connected == Connected(pool[..i], reach)
      invariant unconnected == Unconnected(pool[..i], reach)
    {
      var ok, _ := CheckNsConnection(pool[i], i, reach);
      assert pool[..i + 1][..i] == pool[..i];
      if ok {
        connected := connected + [pool[i]];
      } else {
        unconnected := unconnected + [pool[i]];
      }
      i := i + 1;
    }
    assert pool[..i] == pool;
  }

  /** Pruning loses and adds nothing: the two sides together are the pool. */
  lemma {:induction false} PruneKeepsEveryServer(pool: seq<string>, reach: (string, nat, nat) -> bool)
    ensures multiset(Connected(pool, reach)) + multiset(Unconnected(pool, reach)) == multiset(pool)
  {
    if pool != [] {
      var n := |pool| - 1;
      PruneKeepsEveryServer(pool[..n], reach);
      assert pool == pool[..n] + [pool[n]];
      assert multiset(pool) == multiset(pool[..n]) + multiset([pool[n]]);
    }
  }

  /** A server is kept exactly when some entry of the pool holding it answers its check. */
  lemma {:induction false} ConnectedMembers(pool: seq<string>, reach: (string, nat, nat) -> bool, ns: string)
    ensures ns in Connected(pool, reach) <==>
              exists i | 0 <= i < |pool| :: pool[i] == ns && Reachable(ns, i, reach)
  {
    if pool != [] {
      var n := |pool| - 1;
      ConnectedMembers(pool[..n], reach, ns);
      assert Connected(pool, reach) == Connected(pool[..n], reach) + (if Reachable(pool[n], n, reach) then [pool[n]] else []);
      if ns in Connected(pool, reach) && ns !in Connected(pool[..n], reach) {
        assert pool[n] == ns && Reachable(ns, n, reach);
      }
      if i :| 0 <= i < |pool| && pool[i] == ns && Reachable(ns, i, reach) {
        if i < n {
          assert pool[..n][i] == ns;
        }
      }
    }
  }

  /** A server is reported as removed exactly when some entry of the pool holding it fails its check. */
  lemma {:induction false} UnconnectedMembers(pool: seq<string>, reach: (string, nat, nat) -> bool, ns: string)
    ensures ns in Unconnected(pool, reach) <==>
              exists i | 0 <= i < |pool| :: pool[i] == ns && !Reachable(ns, i, reach)
  {
    if pool != [] {
      var n := |pool| - 1;
      UnconnectedMembers(pool[..n], reach, ns);
      assert Unconnected(pool, reach) == Unconnected(pool[..n], reach) + (if Reachable(pool[n], n, reach) then [] else [pool[n]]);
      if ns in Unconnected(pool, reach) && ns !in Unconnected(pool[..n], reach) {
        assert pool[n] == ns && !Reachable(ns, n, reach);
      }
      if i :| 0 <= i < |pool| && pool[i] == ns && !Reachable(ns, i, reach) {
        if i < n {
          assert pool[..n][i] == ns;
        }
      }
    }
  }

  /** Nothing is kept exactly when no entry answers its check. */
  lemma ConnectedEmpty(pool: seq<string>, reach: (string, nat, nat) -> bool)
    ensures Connected(pool, reach) == [] <==> !SomeAnswers(pool, reach)
  {
    var c := Connected(pool, reach);
    if c != [] {
      ConnectedMembers(pool, reach, c[0]);
    }
    if i :| 0 <= i < |pool| && Reachable(pool[i], i, reach) {
      ConnectedMembers(pool, reach, pool[i]);
    }
  }

  /** A server listed twice is checked twice: the first copy can be kept
      while the second is reported removed. */
  lemma RepeatedServerSplit(ns: string)
    ensures var reach := (s: string, i: nat, k: nat) => i == 0;
            Connected([ns, ns], reach) == [ns] && Unconnected([ns, ns], reach) == [ns]
  {
    var reach := (s: string, i: nat, k: nat) => i == 0;
    assert [ns, ns][..1] == [ns];
    assert [ns][..0] == [];
  }

  // ---------------------------------------------------------------------------
  // Wildcard probes

  /** The library tree's probe names. The target is never part of them: the
      loop variable of `CheckDomainWildcard` shadows its parameter. */
  function PkgProbes(randLabel: string): (probes: seq<string>)
    ensures |probes| == 3 && probes[2] == randLabel
    ensures forall i | 0 <= i < 2 :: |probes[i]| >= 1 && '.' !in probes[i]
  {
    ["this-domain-will-never-exist", "neither-will-this-one", randLabel]
  }

  /** The command tree's probe names, equally without the target. */
  function RootProbes(randLabel: string): (probes: seq<string>)
    ensures |probes| == 2 && probes[1] == randLabel
    ensures |probes[0]| >= 1 && '.' !in probes[0]
  {
    ["this-domain-will-never-exist", randLabel]
  }

  /** The verdicts `CheckDomainWildcard` collects: one per probe that got a
      reply, skipping the failed ones. */
  function Verdicts(results: seq<Option<DnsResult>>): (v: seq<bool>)
    ensures |v| <= |results|
  {
    if results == [] then []
    else (match results[0] case None => [] case Some(r) => [HasRecord(r)]) + Verdicts(results[1..])
  }

  lemma {:induction false} VerdictsFalse(results: seq<Option<DnsResult>>)
    ensures false in Verdicts(results) <==>
            exists i | 0 <= i < |results| :: results[i].Some? && !HasRecord(results[i].value)
  {
    if results != [] {
      VerdictsFalse(results[1..]);
      assert results == [results[0]] + results[1..];
      if exists i | 0 <= i < |results[1..]| :: results[1..][i].Some? && !HasRecord(results[1..][i].value) {
        var i :| 0 <= i < |results[1..]| && results[1..][i].Some? && !HasRecord(results[1..][i].value);
        assert results[i + 1] == results[1..][i];
      }
      if exists i | 0 <= i < |results| :: results[i].Some? && !HasRecord(results[i].value) {
        var i :| 0 <= i < |results| && results[i].Some? && !HasRecord(results[i].value);
        if i > 0 {
          assert results[1..][i - 1] == results[i];
        }
      }
    }
  }

  /** `CheckDomainWildcard`: `results[i]` is what `DoDNSResolve` returned for
      probe `i`. Wildcard unless some probe that got a reply had no record;
      a probe whose exchange failed is skipped. */
  function PkgWildcard(results: seq<Option<DnsResult>>): (wildcard: bool)
    requires |results| == 3
    ensures wildcard <==> forall i | 0 <= i < 3 :: results[i].Some? ==> HasRecord(results[i].value)
  {
    VerdictsFalse(results);
    false !in Verdicts(results)
  }

  /** When every probe fails the library tree reports a wildcard. */
  lemma PkgWildcardAllFailed()
    ensures PkgWildcard([None, None, None])
  {
  }

  /** The command tree's `checkWildcard`: a flag per probe, set only by a
      reply with a record; wildcard when both flags are set. A failed probe
      counts as no wildcard. */
  method RootWildcard(results: seq<Option<DnsResult>>) returns (wildcard: bool)
    requires |results| == 2
    ensures wildcard <==> forall i | 0 <= i < 2 :: results[i].Some? && HasRecord(results[i].value)
  {
    var flags := [false, false];
    var idx := 0;
    while idx < 2
      invariant idx <= 2 && |flags| == 2
      invariant forall j | 0 <= j < idx :: flags[j] <==> results[j].Some? && HasRecord(results[j].value)
      invariant forall j | idx <= j < 2 :: !flags[j]
    {
      match results[idx] {
        case None =>
        case Some(r) =>
          if HasRecord(r) {
            flags := flags[idx := true];
          }
      }
      idx := idx + 1;
    }
    wildcard := false !in flags;
  }
}

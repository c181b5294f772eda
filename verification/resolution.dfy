/**
 One resolution worker of the brute engine (`BruteEngine.worker` with
 `fetchTaskFromChannel` and `resolve`). The worker listens on two sources:
 the brute-force task channel, whose labels are qualified with the target,
 and the collector's channel, whose hosts are used as they are. A receive
 from a closed channel sets that source's flag in `channelStatus` to false
 and replaces the channel by nil, so `select` never picks it again. The worker
 stops when both flags are false.

 The `select` is modelled by a sequence of events, one per loop round:
 a receive from either source, the close of either source, or the `default`
 branch (`Idle`). Events of a source whose channel is already nil are never
 chosen by `select`; the model lets them through as rounds that change
 nothing. The DNS exchanges are an oracle: `replies(i, k)` is the reply to
 attempt `k` for the candidate of round `i`, the nameserver choice included.
 The page fetch is an oracle `fetch`. Only one worker is modelled: the flags
 are shared by all workers of `BruteEngine`, which this model does not cover.
 */
module Resolution {
  import opened Common
  import opened Dns
  import opened Records

  /** One round of the `select`. */
  datatype Event = BruteItem(word: string) | BruteClosed | ExtItem(host: string) | ExtClosed | Idle

  /** `channelStatus`: which sources may still deliver. */
  datatype Sources = Sources(bruteOpen: bool, extOpen: bool)

  /** Both flags start true. */
  const AllOpen: Sources := Sources(true, true)

  /** The loop test: some flag is still true. */
  predicate Running(s: Sources) {
    s.bruteOpen || s.extOpen
  }

  /** The settings the worker reads. */
  datatype WorkerConfig = WorkerConfig(target: string, fetchTitle: bool)

  /** A brute-force label under the target: `label + "." + target`. It is
      never empty, so it is never the no-task value. */
  function Qualify(word: string, target: string): (d: string)
    ensures d != ""
    ensures |d| == |word| + 1 + |target|
    ensures d[..|word|] == word && d[|word|] == '.' && d[|word| + 1..] == target
  {
    word + "." + target
  }

  /** The flags after one round: a close turns its source's flag off. */
  function NextSources(s: Sources, e: Event): (t: Sources)
    ensures t.bruteOpen ==> s.bruteOpen
    ensures t.extOpen ==> s.extOpen
    ensures t.bruteOpen == (s.bruteOpen && !e.BruteClosed?)
    ensures t.extOpen == (s.extOpen && !e.ExtClosed?)
  {
    match e
    case BruteClosed => s.(bruteOpen := false)
    case ExtClosed => s.(extOpen := false)
    case _ => s
  }

  /** The domain one round yields; "" (no task) for closes, idle rounds and
      rounds on a source that is already closed. */
  function Candidate(s: Sources, e: Event, target: string): (d: string)
    ensures e.BruteItem? && s.bruteOpen ==> d == Qualify(e.word, target)
    ensures e.ExtItem? && s.extOpen ==> d == e.host
    ensures !(e.BruteItem? && s.bruteOpen) && !(e.ExtItem? && s.extOpen) ==> d == ""
  {
    match e
    case BruteItem(v) => if s.bruteOpen then Qualify(v, target) else ""
    case ExtItem(h) => if s.extOpen then h else ""
    case _ => ""
  }

  /** `fetchTaskFromChannel` for one round. */
  method FetchTaskFromChannel(s: Sources, e: Event, target: string) returns (t: Sources, domain: string)
    ensures t == NextSources(s, e) && domain == Candidate(s, e, target)
  {
    t, domain := s, "";
    match e {
      case BruteItem(v) =>
        if s.bruteOpen {
          domain := v + "." + target;
        }
      case BruteClosed =>
        t := t.(bruteOpen := false);
      case ExtItem(h) =>
        if s.extOpen {
          domain := h;
        }
      case ExtClosed =>
        t := t.(extOpen := false);
      case Idle =>
    }
  }

  // ---------------------------------------------------------------------------
  // resolve: up to three attempts

  /** The reference definition of `resolve` for round `i`, from attempt `k` on.
      `replies(i, k)` is the exchange of attempt `k`'s `DoDNSResolve` call: the
      reply of the nameserver it picked (`AttemptIsDoDnsResolve`). */
  function ResolveFrom(domain: string, replies: (nat, nat) -> Exchange, i: nat, k: nat): Option<DnsResult>
    decreases 3 - k
  {
    if k >= 3 then None
    else match replies(i, k)
      case Answered(answer) => Some(Extract(domain, answer))
      case ExchangeFailed => ResolveFrom(domain, replies, i, k + 1)
  }

  /** An attempt is one `DoDNSResolve` call: when it yields a result that is
      the round's result, and when it fails the next attempt decides. */
  lemma AttemptIsDoDnsResolve(domain: string, pool: seq<string>, pick: nat, reply: string -> Exchange,
                              replies: (nat, nat) -> Exchange, i: nat, k: nat)
    requires pick < |pool| && k < 3 && replies(i, k) == reply(pool[pick])
    ensures DoDnsResolve(domain, pool, pick, reply).Some? ==>
              ResolveFrom(domain, replies, i, k) == DoDnsResolve(domain, pool, pick, reply)
    ensures DoDnsResolve(domain, pool, pick, reply).None? ==>
              ResolveFrom(domain, replies, i, k) == ResolveFrom(domain, replies, i, k + 1)
  {
  }

  /** `resolve`: the first attempt that gets a reply wins; after three failed
      attempts there is no result. */
  method Resolve(domain: string, replies: (nat, nat) -> Exchange, i: nat) returns (r: Option<DnsResult>, tries: nat)
    ensures r == ResolveFrom(domain, replies, i, 0)
    ensures 1 <= tries <= 3
    ensures forall k | 0 <= k < tries - 1 :: replies(i, k).ExchangeFailed?
    ensures r.Some? ==> replies(i, tries - 1).Answered?
                        && r.value == Extract(domain, replies(i, tries - 1).answer)
    ensures r.None? <==> tries == 3 && replies(i, 2).ExchangeFailed?
  {
    var retry := 3;
    tries := 0;
    while retry > 0
      invariant 0 <= retry <= 3 && tries == 3 - retry
      invariant forall k | 0 <= k < tries :: replies(i, k).ExchangeFailed?
      invariant ResolveFrom(domain, replies, i, 0) == ResolveFrom(domain, replies, i, tries)
    {
      var reply := replies(i, tries);
      tries := tries + 1;
      if reply.Answered? {
        return Some(Extract(domain, reply.answer)), tries;
      }
      retry := retry - 1;
    }
    r := None;
  }

  /** After three failures there is nothing, whatever the attempts before. */
  lemma ResolveNoneIff(domain: string, replies: (nat, nat) -> Exchange, i: nat)
    ensures ResolveFrom(domain, replies, i, 0).None? <==>
            replies(i, 0).ExchangeFailed? && replies(i, 1).ExchangeFailed? && replies(i, 2).ExchangeFailed?
  {
    assert ResolveFrom(domain, replies, i, 3).None?;
  }

  // ---------------------------------------------------------------------------
  // The worker

  /** What the worker does with the domain of round `i`: skip the no-task
      value, resolve, drop failed and empty resolutions, and attach the page
      data or the zero value. `BruteEngine.worker` tests for a record twice (once to
      skip, once before sending); the second test always passes. */
  function Handle(domain: string, cfg: WorkerConfig, replies: (nat, nat) -> Exchange, i: nat,
                  fetch: string -> HttpResult): (out: seq<AppResult>)
    ensures |out| <= 1
    ensures domain == "" ==> out == []
    ensures out != [] ==> HasRecord(out[0].dns) && out[0].dns.domain == domain
    ensures out != [] ==> out[0].http == (if cfg.fetchTitle then fetch(domain) else ZeroHttp)
    ensures out == [] <==> domain == "" || ResolveFrom(domain, replies, i, 0).None?
                           || !HasRecord(ResolveFrom(domain, replies, i, 0).value)
  {
    if domain == "" then []
    else match ResolveFrom(domain, replies, i, 0)
      case None => []
      case Some(res) =>
        if !HasRecord(res) then []
        else
          var http := if cfg.fetchTitle then fetch(domain) else ZeroHttp;
          if |res.cnameRecord| != 0 || |res.aRecord| != 0 then [AppResult(res, http)] else []
  }

  /** The flags after the first `n` rounds. */
  function SourcesAfter(events: seq<Event>, n: nat): Sources
    requires n <= |events|
  {
    if n == 0 then AllOpen else NextSources(SourcesAfter(events, n - 1), events[n - 1])
  }

  /** The domain of round `i`. */
  function RoundDomain(events: seq<Event>, i: nat, target: string): string
    requires i < |events|
  {
    Candidate(SourcesAfter(events, i), events[i], target)
  }

  /** What the first `n` rounds send to the result channel, in order. */
  function EmittedAfter(events: seq<Event>, n: nat, cfg: WorkerConfig, replies: (nat, nat) -> Exchange,
                        fetch: string -> HttpResult): seq<AppResult>
    requires n <= |events|
  {
    if n == 0 then []
    else EmittedAfter(events, n - 1, cfg, replies, fetch)
         + Handle(RoundDomain(events, n - 1, cfg.target), cfg, replies, n - 1, fetch)
  }

  /** The body of one round: resolve a non-empty domain and send a record
      that has data, with its page data attached. */
  method HandleRound(domain: string, cfg: WorkerConfig, replies: (nat, nat) -> Exchange, i: nat,
                     fetch: string -> HttpResult) returns (out: seq<AppResult>)
    ensures out == Handle(domain, cfg, replies, i, fetch)
  {
    out := [];
    if domain != "" {
      var result, _ := Resolve(domain, replies, i);
      if result.Some? && HasRecord(result.value) {
        var http := if cfg.fetchTitle then fetch(domain) else ZeroHttp;
        out := [AppResult(result.value, http)];
      }
    }
  }

  /** The worker loop over the rounds the `select` delivers. It runs while a
      flag is true and events remain; `consumed` is the number of rounds. */
  method Worker(events: seq<Event>, cfg: WorkerConfig, replies: (nat, nat) -> Exchange,
                fetch: string -> HttpResult) returns (sent: seq<AppResult>, sources: Sources, consumed: nat)
    ensures consumed <= |events|
    ensures sources == SourcesAfter(events, consumed)
    ensures sent == EmittedAfter(events, consumed, cfg, replies, fetch)
    ensures consumed < |events| ==> !Running(sources)
    ensures forall j | 0 <= j < consumed :: Running(SourcesAfter(events, j))
  {
    sources := AllOpen;
    sent := [];
    consumed := 0;
    while Running(sources) && consumed < |events|
      invariant consumed <= |events|
      invariant sources == SourcesAfter(events, consumed)
      invariant sent == EmittedAfter(events, consumed, cfg, replies, fetch)
      invariant forall j | 0 <= j < consumed :: Running(SourcesAfter(events, j))
    {
      var domain;
      sources, domain := FetchTaskFromChannel(sources, events[consumed], cfg.target);
      var out := HandleRound(domain, cfg, replies, consumed, fetch);
      sent := sent + out;
      consumed := consumed + 1;
    }
  }

  /** Flags never come back: a flag off after `j` rounds stays off. */
  lemma {:induction false} SourcesNeverReopen(events: seq<Event>, j: nat, n: nat)
    requires j <= n <= |events|
    ensures SourcesAfter(events, n).bruteOpen ==> SourcesAfter(events, j).bruteOpen
    ensures SourcesAfter(events, n).extOpen ==> SourcesAfter(events, j).extOpen
    decreases n - j
  {
    if j < n {
      SourcesNeverReopen(events, j, n - 1);
    }
  }

  /** A flag is off exactly when its source's close has been received. */
  lemma {:induction false} SourceClosedIff(events: seq<Event>, n: nat)
    requires n <= |events|
    ensures !SourcesAfter(events, n).bruteOpen <==> BruteClosed in events[..n]
    ensures !SourcesAfter(events, n).extOpen <==> ExtClosed in events[..n]
  {
    if n > 0 {
      SourceClosedIff(events, n - 1);
      assert events[..n] == events[..n - 1] + [events[n - 1]];
    }
  }

  /** Everything sent has an A or CNAME record, carries the domain of the
      round it came from, which is never the no-task value, and carries the
      zero page data when titles are not fetched. */
  lemma {:induction false} EmittedRecords(events: seq<Event>, n: nat, cfg: WorkerConfig,
                                          replies: (nat, nat) -> Exchange, fetch: string -> HttpResult)
    requires n <= |events|
    ensures forall r | r in EmittedAfter(events, n, cfg, replies, fetch) ::
              HasRecord(r.dns) && r.dns.domain != ""
              && (!cfg.fetchTitle ==> r.http == ZeroHttp)
              && exists i | 0 <= i < n :: r.dns.domain == RoundDomain(events, i, cfg.target)
  {
    if n > 0 {
      EmittedRecords(events, n - 1, cfg, replies, fetch);
      var last := Handle(RoundDomain(events, n - 1, cfg.target), cfg, replies, n - 1, fetch);
      forall r | r in EmittedAfter(events, n, cfg, replies, fetch)
        ensures exists i | 0 <= i < n :: r.dns.domain == RoundDomain(events, i, cfg.target)
      {
        if r in last {
          assert r.dns.domain == RoundDomain(events, n - 1, cfg.target);
        } else {
          assert r in EmittedAfter(events, n - 1, cfg, replies, fetch);
          var i :| 0 <= i < n - 1 && r.dns.domain == RoundDomain(events, i, cfg.target);
          assert r.dns.domain == RoundDomain(events, i, cfg.target);
        }
      }
    }
  }

  /** The number of rounds among the first `n` that carried a task (a non-empty domain). */
  function TaskRounds(events: seq<Event>, n: nat, target: string): (c: nat)
    requires n <= |events|
    ensures c <= n
  {
    if n == 0 then 0
    else TaskRounds(events, n - 1, target) + (if RoundDomain(events, n - 1, target) != "" then 1 else 0)
  }

  /** The number of records sent is at most the number of rounds that carried a task. */
  lemma {:induction false} EmittedAtMostOnePerRound(events: seq<Event>, n: nat, cfg: WorkerConfig,
                                                    replies: (nat, nat) -> Exchange, fetch: string -> HttpResult)
    requires n <= |events|
    ensures |EmittedAfter(events, n, cfg, replies, fetch)| <= TaskRounds(events, n, cfg.target) <= n
  {
    if n > 0 {
      EmittedAtMostOnePerRound(events, n - 1, cfg, replies, fetch);
    }
  }
}

/**
 The external-source collector (`FofaEngine.worker`). For every trigger it
 receives it requests result pages 1 to 30 in order, collects the host names
 of the first field of every result row, and when the pagination ends sends
 every collected host, once and in first-seen order, to the resolution
 workers. Nothing happens at all when the token is empty.

 The network and the JSON decoding are an oracle: `pages(t, p)` is the
 outcome of page `p` for trigger `t`. A page whose fetch or decoding fails
 is skipped; an envelope whose error flag is set, or whose result list is
 empty, ends the pagination. The URL parser is an oracle `hostOf`: the host
 name of a URL, or `None` when `url.Parse` fails. The token must contain '|'
 (`FofaEngine.worker` indexes the second field of the split without checking).
 */
module Collector {
  import opened Common
  import opened GoStrings
  import opened Base64Url

  /** What a page request ends in. `fields` are the first fields of the result rows. */
  datatype PageOutcome = FetchError | ParseError | Envelope(error: bool, fields: seq<string>)

  /** A page that ends the pagination: the error flag is set or there are no results. */
  predicate EndsPaging(o: PageOutcome) {
    o.Envelope? && (o.error || o.fields == [])
  }

  /** The last page number requested per trigger. */
  const MaxPage: nat := 30

  predicate HasScheme(u: string) {
    HasPrefix(u, "https://") || HasPrefix(u, "http://")
  }

  /** A first field without "http://" or "https://" gets "https://" in front. */
  function Normalize(raw: string): (u: string)
    ensures HasScheme(u)
    ensures HasScheme(raw) ==> u == raw
    ensures !HasScheme(raw) ==> |u| == |raw| + 8 && u[8..] == raw
  {
    if HasScheme(raw) then raw else "https://" + raw
  }

  /** Normalizing twice is normalizing once. */
  lemma NormalizeIdempotent(raw: string)
    ensures Normalize(Normalize(raw)) == Normalize(raw)
  {
  }

  /** The host names of a page's rows, in row order; rows whose URL does not parse are skipped. */
  function PageHosts(fields: seq<string>, hostOf: string -> Option<string>): (hosts: seq<string>)
    ensures |hosts| <= |fields|
  {
    if fields == [] then []
    else
      (match hostOf(Normalize(fields[0])) case None => [] case Some(h) => [h])
      + PageHosts(fields[1..], hostOf)
  }

  // ---------------------------------------------------------------------------
  // First-seen deduplication

  /** `acc` extended by the elements of `xs` it does not hold yet, in order. */
  function AddNew(acc: seq<string>, xs: seq<string>): (r: seq<string>)
    decreases |xs|
  {
    if xs == [] then acc
    else AddNew(if xs[0] in acc then acc else acc + [xs[0]], xs[1..])
  }

  /** Adding in two parts is adding at once: pages can be collected one after another. */
  lemma {:induction false} AddNewAppend(acc: seq<string>, xs: seq<string>, ys: seq<string>)
    ensures AddNew(acc, xs + ys) == AddNew(AddNew(acc, xs), ys)
    decreases |xs|
  {
    if xs == [] {
      assert xs + ys == ys;
    } else {
      assert (xs + ys)[0] == xs[0];
      assert (xs + ys)[1..] == xs[1..] + ys;
      AddNewAppend(if xs[0] in acc then acc else acc + [xs[0]], xs[1..], ys);
    }
  }

  /** What was collected keeps its place, nothing is repeated, and exactly the
      elements of `acc` and `xs` are present. */
  lemma {:induction false} AddNewFacts(acc: seq<string>, xs: seq<string>)
    requires NoDuplicates(acc)
    ensures |acc| <= |AddNew(acc, xs)| && AddNew(acc, xs)[..|acc|] == acc
    ensures NoDuplicates(AddNew(acc, xs))
    ensures forall x :: x in AddNew(acc, xs) <==> x in acc || x in xs
    decreases |xs|
  {
    if xs != [] {
      var next := if xs[0] in acc then acc else acc + [xs[0]];
      var r := AddNew(next, xs[1..]);
      assert AddNew(acc, xs) == r;
      assert next[..|acc|] == acc;
      assert NoDuplicates(next);
      assert forall x :: x in next <==> x in acc || x == xs[0];
      assert forall x :: x in xs <==> x == xs[0] || x in xs[1..];
      AddNewFacts(next, xs[1..]);
      assert r[..|acc|] == r[..|next|][..|acc|];
    }
  }

  // ---------------------------------------------------------------------------
  // Pagination

  /** The hosts a page that does not end the pagination contributes: none
      when its fetch or decoding failed. */
  function PageYield(o: PageOutcome, hostOf: string -> Option<string>): seq<string> {
    if o.Envelope? then PageHosts(o.fields, hostOf) else []
  }

  /** The reference definition: the hosts of every page from `p` on, until a
      page ends the pagination or page 30 has been read. */
  function HostsFrom(pages: (nat, nat) -> PageOutcome, t: nat, p: nat, hostOf: string -> Option<string>)
    : seq<string>
    requires p >= 1
    decreases MaxPage + 1 - p
  {
    if p > MaxPage || EndsPaging(pages(t, p)) then []
    else PageYield(pages(t, p), hostOf) + HostsFrom(pages, t, p + 1, hostOf)
  }

  /** The page numbers requested from `p` on. */
  function PagesFrom(pages: (nat, nat) -> PageOutcome, t: nat, p: nat): (ps: seq<nat>)
    requires p >= 1
    ensures p <= MaxPage + 1 ==> |ps| <= MaxPage + 1 - p
    decreases MaxPage + 1 - p
  {
    if p > MaxPage then []
    else
      if EndsPaging(pages(t, p)) then [p] else [p] + PagesFrom(pages, t, p + 1)
  }

  /** One page of the loop: each row's host is added unless already there. */
  method CollectPage(acc: seq<string>, fields: seq<string>, hostOf: string -> Option<string>)
    returns (r: seq<string>)
    ensures r == AddNew(acc, PageHosts(fields, hostOf))
  {
    r := acc;
    var i := 0;
    while i < |fields|
      invariant i <= |fields|
      invariant AddNew(acc, PageHosts(fields, hostOf)) == AddNew(r, PageHosts(fields[i..], hostOf))
    {
      var rawUrl := fields[i];
      if !HasPrefix(rawUrl, "https://") && !HasPrefix(rawUrl, "http://") {
        rawUrl := "https://" + rawUrl;
      }
      assert fields[i..][1..] == fields[i + 1..];
      assert rawUrl == Normalize(fields[i]);
      match hostOf(rawUrl) {
        case None =>
          assert PageHosts(fields[i..], hostOf) == PageHosts(fields[i + 1..], hostOf);
        case Some(domain) =>
          assert PageHosts(fields[i..], hostOf) == [domain] + PageHosts(fields[i + 1..], hostOf);
          if domain !in r {
            r := r + [domain];
          }
      }
      i := i + 1;
    }
  }

  /** Page `p` that is not the last one read: skipped or collected, then on to `p + 1`. */
  lemma PageStep(pages: (nat, nat) -> PageOutcome, t: nat, p: nat, hostOf: string -> Option<string>)
    requires 1 <= p <= MaxPage
    requires !EndsPaging(pages(t, p))
    ensures PagesFrom(pages, t, p) == [p] + PagesFrom(pages, t, p + 1)
    ensures HostsFrom(pages, t, p, hostOf) == PageYield(pages(t, p), hostOf) + HostsFrom(pages, t, p + 1, hostOf)
  {
  }

  /** One round of the page loop: request page `p`, and either stop or
      collect its hosts (nothing for a failed page) and go on. */
  method ReadPage(pages: (nat, nat) -> PageOutcome, t: nat, p: nat, hostOf: string -> Option<string>,
                  hosts: seq<string>) returns (next: seq<string>, stop: bool)
    requires 1 <= p <= MaxPage
    ensures stop <==> EndsPaging(pages(t, p))
    ensures stop ==> next == hosts && PagesFrom(pages, t, p) == [p] && HostsFrom(pages, t, p, hostOf) == []
    ensures !stop ==> PagesFrom(pages, t, p) == [p] + PagesFrom(pages, t, p + 1)
    ensures !stop ==> AddNew(hosts, HostsFrom(pages, t, p, hostOf)) == AddNew(next, HostsFrom(pages, t, p + 1, hostOf))
  {
    var outcome := pages(t, p);
    next := hosts;
    stop := EndsPaging(outcome);
    if stop {
      return;
    }
    PageStep(pages, t, p, hostOf);
    if outcome.Envelope? {
      AddNewAppend(hosts, PageHosts(outcome.fields, hostOf), HostsFrom(pages, t, p + 1, hostOf));
      next := CollectPage(hosts, outcome.fields, hostOf);
    } else {
      assert PageYield(outcome, hostOf) == [];
      assert HostsFrom(pages, t, p, hostOf) == HostsFrom(pages, t, p + 1, hostOf);
    }
  }

  /** One round of the page loop in the terms of its invariant: after page `p`
      either nothing remains (the pagination ended) or what remained from `p`
      on is what remains from `p + 1` on. */
  method Advance(pages: (nat, nat) -> PageOutcome, t: nat, p: nat, hostOf: string -> Option<string>,
                 hosts: seq<string>, requested: seq<nat>)
    returns (hosts': seq<string>, requested': seq<nat>, stop: bool)
    requires 1 <= p <= MaxPage
    ensures stop ==> hosts' == AddNew(hosts, HostsFrom(pages, t, p, hostOf))
    ensures stop ==> requested' == requested + PagesFrom(pages, t, p)
    ensures !stop ==> AddNew(hosts, HostsFrom(pages, t, p, hostOf)) == AddNew(hosts', HostsFrom(pages, t, p + 1, hostOf))
    ensures !stop ==> requested + PagesFrom(pages, t, p) == requested' + PagesFrom(pages, t, p + 1)
  {
    hosts', stop := ReadPage(pages, t, p, hostOf, hosts);
    requested' := requested + [p];
    if !stop {
      AppendAssoc(requested, [p], PagesFrom(pages, t, p + 1));
    }
  }

  /** The pagination loop for trigger `t` from page `first` on, appending to
      `hosts` and `requested`. */
  method PaginateFrom(pages: (nat, nat) -> PageOutcome, t: nat, first: nat, hostOf: string -> Option<string>,
                      hosts: seq<string>, requested: seq<nat>)
    returns (hosts': seq<string>, requested': seq<nat>)
    requires 1 <= first
    ensures hosts' == AddNew(hosts, HostsFrom(pages, t, first, hostOf))
    ensures requested' == requested + PagesFrom(pages, t, first)
  {
    hosts', requested' := hosts, requested;
    var p: nat := first;
    var stop := false;
    while p <= MaxPage && !stop
      invariant first <= p && (first <= MaxPage + 1 ==> p <= MaxPage + 1)
      invariant !stop ==> AddNew(hosts, HostsFrom(pages, t, first, hostOf)) == AddNew(hosts', HostsFrom(pages, t, p, hostOf))
      invariant !stop ==> requested + PagesFrom(pages, t, first) == requested' + PagesFrom(pages, t, p)
      invariant stop ==> hosts' == AddNew(hosts, HostsFrom(pages, t, first, hostOf))
      invariant stop ==> requested' == requested + PagesFrom(pages, t, first)
    {
      hosts', requested', stop := Advance(pages, t, p, hostOf, hosts', requested');
      p := p + 1;
    }
    if !stop {
      assert HostsFrom(pages, t, p, hostOf) == [] && PagesFrom(pages, t, p) == [];
      assert requested' + [] == requested';
    }
  }

  /** The pagination loop for trigger `t`: `requested` are the page numbers
      requested, `hosts` the collected host names. */
  method Paginate(pages: (nat, nat) -> PageOutcome, t: nat, hostOf: string -> Option<string>)
    returns (hosts: seq<string>, requested: seq<nat>)
    ensures hosts == AddNew([], HostsFrom(pages, t, 1, hostOf))
    ensures requested == PagesFrom(pages, t, 1)
  {
    hosts, requested := PaginateFrom(pages, t, 1, hostOf, [], []);
    assert [] + PagesFrom(pages, t, 1) == PagesFrom(pages, t, 1);
  }

  /** The hosts of one trigger are deduplicated, keep first-seen order, and
      are exactly the hosts of the pages read. */
  lemma CollectedHosts(pages: (nat, nat) -> PageOutcome, t: nat, hostOf: string -> Option<string>)
    ensures var hosts := AddNew([], HostsFrom(pages, t, 1, hostOf));
            NoDuplicates(hosts) && forall h :: h in hosts <==> h in HostsFrom(pages, t, 1, hostOf)
  {
    AddNewFacts([], HostsFrom(pages, t, 1, hostOf));
  }

  /** The pages requested from `p` on are consecutive and none is beyond page 30. */
  lemma {:induction false} PagesFromValues(pages: (nat, nat) -> PageOutcome, t: nat, p: nat)
    requires p >= 1
    ensures forall i | 0 <= i < |PagesFrom(pages, t, p)| :: PagesFrom(pages, t, p)[i] == p + i <= MaxPage
    decreases MaxPage + 1 - p
  {
    var ps := PagesFrom(pages, t, p);
    if p > MaxPage {
      assert ps == [];
    } else if EndsPaging(pages(t, p)) {
      assert ps == [p];
    } else {
      var rest := PagesFrom(pages, t, p + 1);
      PagesFromValues(pages, t, p + 1);
      assert ps == [p] + rest;
      forall i | 0 <= i < |ps| ensures ps[i] == p + i <= MaxPage {
        if i > 0 {
          assert ps[i] == rest[i - 1];
        }
      }
    }
  }

  /** At most 30 pages are requested per trigger, in increasing order from 1. */
  lemma RequestedPages(pages: (nat, nat) -> PageOutcome, t: nat)
    ensures |PagesFrom(pages, t, 1)| <= MaxPage
    ensures forall i | 0 <= i < |PagesFrom(pages, t, 1)| :: PagesFrom(pages, t, 1)[i] == i + 1
  {
    PagesFromValues(pages, t, 1);
  }

  // ---------------------------------------------------------------------------
  // The worker over its triggers

  /** The fixed start of every request URL, up to the email value. */
  const ApiBase: string := "https://" + ("fofa.info" + ("/api/v1" + ("/search/all" + "?email=")))

  /** No '$' in the fixed start, so no placeholder begins inside it. */
  lemma ApiBaseNoDollar()
    ensures '$' !in ApiBase
  {
    assert '$' !in "https://" && '$' !in "fofa.info" && '$' !in "/api/v1";
    assert '$' !in "/search/all" && '$' !in "?email=";
  }

  /** The request URL template, "https://fofa.info/api/v1/search/all?email=${e}&key=${k}&qbase64=${q}&page=${p}",
      written as its fixed parts and its four placeholders. */
  const UrlTemplate: string :=
    ApiBase + ("${e}" + ("&key=" + ("${k}" + ("&qbase64=" + ("${q}" + ("&page=" + "${p}"))))))

  /** The placeholder `${c}` of the template. */
  function Placeholder(c: char): (pat: string)
    ensures |pat| == 4 && pat[0] == '$'
  {
    ['$', '{', c, '}']
  }

  /** The URL with its four parameter values in place. */
  function UrlShape(email: string, key: string, q: string, page: string): string {
    ApiBase + (email + ("&key=" + (key + ("&qbase64=" + (q + ("&page=" + page))))))
  }

  /** The template is the URL shape with a placeholder for each parameter value. */
  lemma TemplateShape()
    ensures UrlTemplate == UrlShape(Placeholder('e'), Placeholder('k'), Placeholder('q'), Placeholder('p'))
  {
    assert Placeholder('e') == "${e}" && Placeholder('k') == "${k}";
    assert Placeholder('q') == "${q}" && Placeholder('p') == "${p}";
  }

  /** Text without '$' holds no placeholder. */
  lemma NoDollarUnchanged(x: string, c: char, rep: string)
    requires '$' !in x
    ensures ReplaceAll(x, Placeholder(c), rep) == x
  {
    ReplaceAllPlainPrefix(x, [], Placeholder(c), rep);
    assert x + [] == x;
  }

  /** A placeholder is not replaced by a substitution for another letter. */
  lemma OtherPlaceholder(c: char, d: char, rep: string)
    requires c != d && 'a' <= d <= 'z'
    ensures ReplaceAll(Placeholder(d), Placeholder(c), rep) == Placeholder(d)
  {
    var pd := Placeholder(d);
    assert !HasPrefix(pd, Placeholder(c)) by {
      assert pd[2] != Placeholder(c)[2];
    }
    NoDollarUnchanged(pd[1..], c, rep);
    assert pd == [pd[0]] + pd[1..];
  }

  /** One substitution acts on each parameter value separately: the fixed text
      between them holds no '$' and each field name begins with '&'. */
  lemma {:induction false} ShapeReplace(email: string, key: string, q: string, page: string, c: char, rep: string)
    requires 'a' <= c <= 'z'
    ensures ReplaceAll(UrlShape(email, key, q, page), Placeholder(c), rep)
            == UrlShape(ReplaceAll(email, Placeholder(c), rep), ReplaceAll(key, Placeholder(c), rep),
                        ReplaceAll(q, Placeholder(c), rep), ReplaceAll(page, Placeholder(c), rep))
  {
    var pat := Placeholder(c);
    assert pat[1..] == ['{', c, '}'];
    var r4 := "&page=" + page;
    var r3 := q + r4;
    var r2 := "&qbase64=" + r3;
    var r1 := key + r2;
    var r0 := "&key=" + r1;
    ReplaceAllPlainPrefix("&page=", page, pat, rep);
    ReplaceAllAppend(q, r4, pat, rep);
    ReplaceAllPlainPrefix("&qbase64=", r3, pat, rep);
    ReplaceAllAppend(key, r2, pat, rep);
    ReplaceAllPlainPrefix("&key=", r1, pat, rep);
    ReplaceAllAppend(email, r0, pat, rep);
    ApiBaseNoDollar();
    ReplaceAllPlainPrefix(ApiBase, email + r0, pat, rep);
  }

  /** The query parameter: the base64url text of the bytes of "domain=" + target. */
  function Query(target: string): (q: string)
    ensures '$' !in q
  {
    var q := Encode(Utf8("domain=" + target));
    EncodeAlphabet(Utf8("domain=" + target));
    q
  }

  /** The URL of page `p`: the four placeholders replaced in turn. */
  function PageUrl(email: string, key: string, target: string, p: nat): string {
    var u := ReplaceAll(UrlTemplate, "${q}", Query(target));
    var u := ReplaceAll(u, "${p}", Itoa(p));
    var u := ReplaceAll(u, "${e}", email);
    ReplaceAll(u, "${k}", key)
  }

  /** The URL of page `p` carries the email, the key, the encoded query and the
      page number, as long as the email holds no '$' (a "${k}" in it would
      be replaced by the key). */
  lemma PageUrlShape(email: string, key: string, target: string, p: nat)
    requires '$' !in email
    ensures PageUrl(email, key, target, p) == UrlShape(email, key, Query(target), Itoa(p))
  {
    var e, k, q, pp := Placeholder('e'), Placeholder('k'), Placeholder('q'), Placeholder('p');
    var query, page := Query(target), Itoa(p);
    assert '$' !in page by {
      assert forall i | 0 <= i < |page| :: IsDigit(page[i]);
    }
    TemplateShape();
    ShapeReplace(e, k, q, pp, 'q', query);
    OtherPlaceholder('q', 'e', query);
    OtherPlaceholder('q', 'k', query);
    OtherPlaceholder('q', 'p', query);
    ReplaceAllSelf(q, query);
    var u1 := UrlShape(e, k, query, pp);
    ShapeReplace(e, k, query, pp, 'p', page);
    OtherPlaceholder('p', 'e', page);
    OtherPlaceholder('p', 'k', page);
    NoDollarUnchanged(query, 'p', page);
    ReplaceAllSelf(pp, page);
    var u2 := UrlShape(e, k, query, page);
    ShapeReplace(e, k, query, page, 'e', email);
    ReplaceAllSelf(e, email);
    OtherPlaceholder('e', 'k', email);
    NoDollarUnchanged(query, 'e', email);
    NoDollarUnchanged(page, 'e', email);
    var u3 := UrlShape(email, k, query, page);
    ShapeReplace(email, k, query, page, 'k', key);
    NoDollarUnchanged(email, 'k', key);
    ReplaceAllSelf(k, key);
    NoDollarUnchanged(query, 'k', key);
    NoDollarUnchanged(page, 'k', key);
  }

  /** The email and key fields of the token: the text before the first '|'
      and the text between it and the next one. */
  function TokenFields(token: string): (r: (string, string))
    requires '|' in token
    ensures |r.0| < |token| && token == r.0 + "|" + token[|r.0| + 1..] && '|' !in r.0
    ensures HasPrefix(token[|r.0| + 1..], r.1) && '|' !in r.1
    ensures |r.0| + 1 + |r.1| == |token| || token[|r.0| + 1 + |r.1|] == '|'
  {
    var parts := Split(token, '|');
    var i := IndexOf(token, '|');
    var rest := token[i + 1..];
    assert parts == [token[..i]] + Split(rest, '|');
    assert '|' in rest ==> rest[IndexOf(rest, '|')] == '|';
    (parts[0], parts[1])
  }

  /** The page URLs for a list of requested page numbers. */
  function Urls(email: string, key: string, target: string, ps: seq<nat>): (us: seq<string>)
    ensures |us| == |ps|
    ensures forall i | 0 <= i < |ps| :: us[i] == PageUrl(email, key, target, ps[i])
  {
    if ps == [] then [] else [PageUrl(email, key, target, ps[0])] + Urls(email, key, target, ps[1..])
  }

  /** The hosts the pages of each trigger yield, in page order. */
  function TriggerHosts(pages: (nat, nat) -> PageOutcome, hostOf: string -> Option<string>): nat -> seq<string> {
    (t: nat) => HostsFrom(pages, t, 1, hostOf)
  }

  /** What the worker sends for the first `n` triggers, trigger `t` yielding
      `hosts(t)`: each trigger's hosts, collected afresh, one after another. */
  function PublishedAfter(n: nat, hosts: nat -> seq<string>): seq<string> {
    if n == 0 then [] else PublishedAfter(n - 1, hosts) + AddNew([], hosts(n - 1))
  }

  /** The URLs requested for the first `n` triggers. */
  function RequestedAfter(n: nat, pages: (nat, nat) -> PageOutcome, email: string, key: string, target: string)
    : seq<string>
  {
    if n == 0 then [] else RequestedAfter(n - 1, pages, email, key, target) + Urls(email, key, target, PagesFrom(pages, n - 1, 1))
  }

  /** The worker. `triggers` are the tasks received until the task channel
      closes (their text is not looked at); trigger `t` reads its pages from
      `pages(t, _)`. `published` is what goes to the result channel and
      `requested` the page URLs fetched. */
  method FofaWorker(token: string, target: string, triggers: seq<string>,
                    pages: (nat, nat) -> PageOutcome, hostOf: string -> Option<string>)
    returns (published: seq<string>, requested: seq<string>)
    requires token == "" || '|' in token
    ensures token == "" ==> published == [] && requested == []
    ensures token != "" ==> published == PublishedAfter(|triggers|, TriggerHosts(pages, hostOf))
    ensures token != "" ==> requested == RequestedAfter(|triggers|, pages, TokenFields(token).0, TokenFields(token).1, target)
  {
    published, requested := [], [];
    if token == "" {
      return;
    }
    var parts := Split(token, '|');
    var email, key := parts[0], parts[1];
    var t := 0;
    while t < |triggers|
      invariant t <= |triggers|
      invariant published == PublishedAfter(t, TriggerHosts(pages, hostOf))
      invariant requested == RequestedAfter(t, pages, email, key, target)
    {
      var hosts, ps := Paginate(pages, t, hostOf);
      assert hosts == AddNew([], TriggerHosts(pages, hostOf)(t));
      requested := requested + Urls(email, key, target, ps);
      published := published + hosts;
      t := t + 1;
    }
  }

  /** The number of the first `n` triggers that yield host `h`. */
  function TriggersYielding(n: nat, hosts: nat -> seq<string>, h: string): (c: nat)
    ensures c <= n
  {
    if n == 0 then 0 else TriggersYielding(n - 1, hosts, h) + (if h in hosts(n - 1) then 1 else 0)
  }

  /** A collected list holds each host of its input exactly once. */
  lemma CountCollected(xs: seq<string>, h: string)
    ensures Count(AddNew([], xs), h) == if h in xs then 1 else 0
  {
    AddNewFacts([], xs);
    CountDistinct(AddNew([], xs), h);
  }

  /** A host is published once for every trigger that yields it: once per
      trigger, and again by each later trigger, as the collected list starts
      afresh for every trigger. */
  lemma {:induction false} PublishedCount(n: nat, hosts: nat -> seq<string>, h: string)
    ensures Count(PublishedAfter(n, hosts), h) == TriggersYielding(n, hosts, h)
  {
    if n > 0 {
      PublishedCount(n - 1, hosts, h);
      CountCollected(hosts(n - 1), h);
      CountAppend(PublishedAfter(n - 1, hosts), AddNew([], hosts(n - 1)), h);
    }
  }
}

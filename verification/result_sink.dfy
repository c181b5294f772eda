/**
 The result sink (`ResultEngine.worker`): it receives records until the
 result channel closes, drops those without an A or CNAME record, keeps the
 first record of every domain (a map of seen domains), writes one CSV row per
 kept record after the header row, and in the library tree also appends the
 kept record to `subdomainResult`. The file and the CSV quoting are not part
 of this model: the rows are the field lists handed to the CSV writer.
 */
module ResultSink {
  import opened Common
  import opened GoStrings
  import opened Dns
  import opened Records

  /** The header row. */
  const Header: seq<string> :=
    ["DOMAIN", "CNAME", "A", "STATUS_CODE", "TITLE", "LOCATION", "CONTENT_LENGTH", "HTTP_ERROR"]

  /** `int(u)` for a 64-bit `uint`: values from 2^63 on wrap to negatives. */
  function GoInt(u: Uint64): (v: int)
    ensures -0x8000_0000_0000_0000 <= v < 0x8000_0000_0000_0000
    ensures v % 0x1_0000_0000_0000_0000 == u as int
  {
    if u < 0x8000_0000_0000_0000 then u as int else u as int - 0x1_0000_0000_0000_0000
  }

  /** The fields written for one record, in header order. */
  function Row(r: AppResult): (row: seq<string>)
    ensures |row| == |Header| == 8
  {
    [r.dns.domain,
     Join(r.dns.cnameRecord, ","),
     Join(r.dns.aRecord, ","),
     Itoa(GoInt(r.http.statusCode)),
     r.http.title,
     r.http.location,
     Itoa(GoInt(r.http.bodyLength)),
     r.http.error]
  }

  /** A list joined with ',' and split again is the list, when no entry holds a ','. */
  predicate CommaFree(xs: seq<string>) {
    forall i | 0 <= i < |xs| :: ',' !in xs[i]
  }

  /** A list column reads back as the list when it is non-empty and no entry holds a ','. */
  lemma ListColumn(xs: seq<string>)
    ensures xs != [] && CommaFree(xs) ==> Split(Join(xs, ","), ',') == xs
  {
    if xs != [] && CommaFree(xs) {
      SplitJoin(xs, ',');
    }
  }

  /** A number column reads back as the number when it fits in 32 bits. */
  lemma NumberColumn(u: Uint64)
    ensures u as int <= MaxUint32 ==> ParseUint32(Itoa(GoInt(u))) == u as int
  {
    if u as int <= MaxUint32 {
      ParseItoa(u as int);
    }
  }

  /** Each column can be read back: the domain, the CNAME and A lists (for
      non-empty lists without ','), the status code and body length (in the
      32-bit range), and the page fields. */
  lemma RowColumns(r: AppResult)
    ensures Row(r)[0] == r.dns.domain
    ensures r.dns.cnameRecord != [] && CommaFree(r.dns.cnameRecord) ==> Split(Row(r)[1], ',') == r.dns.cnameRecord
    ensures r.dns.aRecord != [] && CommaFree(r.dns.aRecord) ==> Split(Row(r)[2], ',') == r.dns.aRecord
    ensures r.http.statusCode as int <= MaxUint32 ==> ParseUint32(Row(r)[3]) == r.http.statusCode as int
    ensures r.http.bodyLength as int <= MaxUint32 ==> ParseUint32(Row(r)[6]) == r.http.bodyLength as int
    ensures Row(r)[4] == r.http.title && Row(r)[5] == r.http.location && Row(r)[7] == r.http.error
  {
    var row := Row(r);
    assert row[1] == Join(r.dns.cnameRecord, ",") && row[2] == Join(r.dns.aRecord, ",");
    assert row[3] == Itoa(GoInt(r.http.statusCode)) && row[6] == Itoa(GoInt(r.http.bodyLength));
    ListColumn(r.dns.cnameRecord);
    ListColumn(r.dns.aRecord);
    NumberColumn(r.http.statusCode);
    NumberColumn(r.http.bodyLength);
  }

  /** The reference definition of the sink's choice: record `i` is kept when
      it has a record and no earlier record WITH a record had its domain.
      Empty records are not looked at, so they never block a later one. */
  predicate FirstWins(rs: seq<AppResult>, i: nat)
    requires i < |rs|
  {
    HasRecord(rs[i].dns)
    && forall j | 0 <= j < i :: HasRecord(rs[j].dns) ==> rs[j].dns.domain != rs[i].dns.domain
  }

  /** The records kept among the first `n` received, in arrival order. */
  function Winners(rs: seq<AppResult>, n: nat): (kept: seq<AppResult>)
    requires n <= |rs|
    ensures |kept| <= n
  {
    if n == 0 then []
    else Winners(rs, n - 1) + (if FirstWins(rs, n - 1) then [rs[n - 1]] else [])
  }

  /** The sink loop. `buffer` is the seen-domain map; `accepted` is
      `subdomainResult`; `rows` is what goes to the CSV writer. */
  method Sink(rs: seq<AppResult>) returns (accepted: seq<AppResult>, rows: seq<seq<string>>)
    ensures accepted == Winners(rs, |rs|)
    ensures |rows| == |accepted| + 1 && rows[0] == Header
    ensures forall k | 0 <= k < |accepted| :: rows[k + 1] == Row(accepted[k])
  {
    var buffer: map<string, string> := map[];
    accepted := [];
    rows := [Header];
    var i := 0;
    while i < |rs|
      invariant i <= |rs|
      invariant accepted == Winners(rs, i)
      invariant forall d :: d in buffer <==> exists j | 0 <= j < i :: HasRecord(rs[j].dns) && rs[j].dns.domain == d
      invariant |rows| == |accepted| + 1 && rows[0] == Header
      invariant forall k | 0 <= k < |accepted| :: rows[k + 1] == Row(accepted[k])
    {
      var task := rs[i];
      if |task.dns.aRecord| == 0 && |task.dns.cnameRecord| == 0 {
        assert !FirstWins(rs, i);
      } else if task.dns.domain in buffer {
        var j :| 0 <= j < i && HasRecord(rs[j].dns) && rs[j].dns.domain == task.dns.domain;
        assert !FirstWins(rs, i);
      } else {
        assert FirstWins(rs, i);
        buffer := buffer[task.dns.domain := ""];
        rows := rows + [Row(task)];
        accepted := accepted + [task];
      }
      i := i + 1;
    }
  }

  /** Every kept record has a record and a domain no other kept record has. */
  lemma {:induction false} WinnersDistinct(rs: seq<AppResult>, n: nat)
    requires n <= |rs|
    ensures forall k | 0 <= k < |Winners(rs, n)| :: HasRecord(Winners(rs, n)[k].dns)
    ensures forall k, m | 0 <= k < m < |Winners(rs, n)| :: Winners(rs, n)[k].dns.domain != Winners(rs, n)[m].dns.domain
  {
    if n > 0 {
      WinnersDistinct(rs, n - 1);
      var prev := Winners(rs, n - 1);
      if FirstWins(rs, n - 1) {
        forall k | 0 <= k < |prev| ensures prev[k].dns.domain != rs[n - 1].dns.domain {
          WinnersFrom(rs, n - 1, prev[k]);
        }
      }
    }
  }

  /** A kept record is one of the received records that wins for its domain. */
  lemma {:induction false} WinnersFrom(rs: seq<AppResult>, n: nat, x: AppResult)
    requires n <= |rs|
    ensures x in Winners(rs, n) <==> exists i | 0 <= i < n :: rs[i] == x && FirstWins(rs, i)
  {
    if n > 0 {
      WinnersFrom(rs, n - 1, x);
    }
  }

  /** No domain is lost: every domain that arrives with a record is kept, once. */
  lemma {:induction false} WinnersCoverDomains(rs: seq<AppResult>, n: nat, i: nat)
    requires i < n <= |rs|
    requires HasRecord(rs[i].dns)
    ensures exists k | 0 <= k < |Winners(rs, n)| :: Winners(rs, n)[k].dns.domain == rs[i].dns.domain
    decreases i
  {
    if FirstWins(rs, i) {
      WinnersFrom(rs, n, rs[i]);
    } else {
      var j :| 0 <= j < i && HasRecord(rs[j].dns) && rs[j].dns.domain == rs[i].dns.domain;
      WinnersCoverDomains(rs, n, j);
    }
  }
}

/**
 The checks made before any stage starts: the flag actions for the
 technicals and the brute length, the library tree's `checkArgs`
 (`checkTechnicals`, `checkNameserver`, `checkWildcard`, stopping at the first
 failure, after which `Run` starts nothing), and the command tree's
 `mainAction`, which returns an error for the technicals and exits the
 process when no nameserver answers or a wildcard is found without F.

 Reachability of a nameserver and the wildcard probes' replies are oracles,
 as in the Dns module.
 */
module Validation {
  import opened Common
  import opened GoStrings
  import opened Dns

  // ---------------------------------------------------------------------------
  // The technicals flag

  /** The parts of the flag value: split at ',' when there is one, else one
      part per character (`strings.Split(s, "")`, which gives no part for ""). */
  function TechParts(s: string): (parts: seq<string>)
    ensures ',' in s ==> |parts| >= 2 && Join(parts, ",") == s
    ensures ',' !in s ==> |parts| == |s| && forall i | 0 <= i < |s| :: parts[i] == [s[i]]
  {
    if ',' in s then Split(s, ',') else SplitChars(s)
  }

  /** A part as it is checked and stored: trimmed and upper-cased. */
  function NormalizeTech(part: string): string {
    ToUpper(TrimSpace(part))
  }

  predicate IsTechnical(t: string) {
    t == "D" || t == "L" || t == "F"
  }

  const TechnicalsError: string := "technicals argument error, only D, L, F allowed"

  /** The flag action: every part normalized and appended to the technicals
      already present, or an error at the first part that is not D, L or F. */
  method ParseTechnicals(prior: seq<string>, s: string) returns (r: Result<seq<string>>)
    ensures r.Ok? <==> forall i | 0 <= i < |TechParts(s)| :: IsTechnical(NormalizeTech(TechParts(s)[i]))
    ensures r.Ok? ==> |r.value| == |prior| + |TechParts(s)| && r.value[..|prior|] == prior
    ensures r.Ok? ==> forall i | 0 <= i < |TechParts(s)| :: r.value[|prior| + i] == NormalizeTech(TechParts(s)[i])
    ensures r.Err? ==> r.msg == TechnicalsError
  {
    var parts := TechParts(s);
    var techs := prior;
    var i := 0;
    while i < |parts|
      invariant i <= |parts|
      invariant forall j | 0 <= j < i :: IsTechnical(NormalizeTech(parts[j]))
      invariant |techs| == |prior| + i && techs[..|prior|] == prior
      invariant forall j | 0 <= j < i :: techs[|prior| + j] == NormalizeTech(parts[j])
    {
      var tech := ToUpper(TrimSpace(parts[i]));
      if tech != "D" && tech != "L" && tech != "F" {
        return Err(TechnicalsError);
      }
      techs := techs + [tech];
      i := i + 1;
    }
    return Ok(techs);
  }

  /** A single character names a technical exactly when it is d, l or f in either case. */
  lemma TechCharAccepted(c: char)
    ensures IsTechnical(NormalizeTech([c])) <==> c in "dlfDLF"
  {
    if IsSpace(c) {
      TrimSpaceUnique([c], [], []);
      assert [c] + [] + [] == [c];
    } else {
      TrimSpaceUnique([], [c], []);
      assert [] + [c] + [] == [c];
      assert NormalizeTech([c]) == [ToUpperChar(c)];
    }
  }

  /** Without a comma the value is accepted exactly when each of its
      characters is d, l or f in either case; spaces are refused. */
  lemma NoCommaTechnicals(s: string)
    requires ',' !in s
    ensures (forall i | 0 <= i < |TechParts(s)| :: IsTechnical(NormalizeTech(TechParts(s)[i])))
            <==> forall i | 0 <= i < |s| :: s[i] in "dlfDLF"
  {
    forall i | 0 <= i < |s|
      ensures IsTechnical(NormalizeTech(TechParts(s)[i])) <==> s[i] in "dlfDLF"
    {
      TechCharAccepted(s[i]);
    }
  }

  /** A part between commas is the character it holds, whatever spaces
      surround it, in either case. */
  lemma SpacedTechnical(p: string, c: char, q: string)
    requires AllSpace(p) && AllSpace(q) && !IsSpace(c)
    ensures IsTechnical(NormalizeTech(p + [c] + q)) <==> c in "dlfDLF"
  {
    TrimSpaceUnique(p, [c], q);
    TechCharAccepted(c);
    TrimSpaceUnique([], [c], []);
    assert [] + [c] + [] == [c];
  }

  /** An empty or blank part, as in "D," or "D, ,L", is refused. */
  lemma BlankPartRefused(part: string)
    requires AllSpace(part)
    ensures !IsTechnical(NormalizeTech(part))
  {
    TrimSpaceUnique(part, [], []);
    assert part + [] + [] == part;
  }

  // ---------------------------------------------------------------------------
  // The brute-length flag: the unanchored pattern `(\d+|\d+-\d+)`

  /** The first alternative `\d+` matches at `i`. */
  predicate DigitsAt(s: string, i: nat)
    requires i <= |s|
  {
    DigitRun(s, i) >= 1
  }

  /** The second alternative `\d+-\d+` matches at `i`. */
  predicate RangeAt(s: string, i: nat)
    requires i <= |s|
  {
    var n := DigitRun(s, i);
    n >= 1 && i + n < |s| && s[i + n] == '-' && DigitRun(s, i + n + 1) >= 1
  }

  /** One of the two alternatives matches at `i`. */
  predicate PatternMatchesAt(s: string, i: nat)
    requires i <= |s|
  {
    DigitsAt(s, i) || RangeAt(s, i)
  }

  const BruteLengthError: string := "brute length format error"

  /** The flag action: `MatchString` looks for a match anywhere in the value. */
  function CheckBruteLength(s: string): (c: Option<string>)
    ensures c.None? <==> exists i | 0 <= i < |s| :: IsDigit(s[i])
    ensures c.Some? ==> c.value == BruteLengthError
  {
    assert forall i | 0 <= i < |s| :: PatternMatchesAt(s, i) <==> IsDigit(s[i]);
    if exists i | 0 <= i <= |s| :: PatternMatchesAt(s, i) then None else Some(BruteLengthError)
  }

  /** Accepted values need not be lengths at all: "x1" passes the check. */
  lemma BruteLengthUnanchored()
    ensures CheckBruteLength("x1").None? && CheckBruteLength("1-3").None?
    ensures CheckBruteLength("").Some? && CheckBruteLength("-").Some?
  {
    assert IsDigit("x1"[1]);
    assert IsDigit("1-3"[0]);
  }

  // ---------------------------------------------------------------------------
  // The configuration and the checks on it

  /** The settings the checks read and update. */
  datatype Settings = Settings(
    technicals: seq<string>, fofaToken: string, nameservers: seq<string>,
    checkWildcard: bool, hasWildcard: bool)

  const TechnicalsEmptyError: string := "technical can't be empty"
  const RootTechnicalsEmptyError: string := "technicals can't be empty"
  const TokenError: string := "fofa token can't be empty when set 'F' technical"
  const NameserversError: string := "all nameservers are unconnected"
  const WildcardError: string := "found wildcard, only `F` technical will execute"

  /** The loop over the technicals that refuses F without a token. */
  method CheckToken(techs: seq<string>, token: string) returns (ok: bool)
    ensures ok <==> !("F" in techs && token == "")
  {
    var i := 0;
    while i < |techs|
      invariant i <= |techs|
      invariant forall j | 0 <= j < i :: !(techs[j] == "F" && token == "")
    {
      if techs[i] == "F" && token == "" {
        return false;
      }
      i := i + 1;
    }
    return true;
  }

  /** `checkTechnicals`: an error when there is no technical, or when F is
      among them and the token is empty. */
  method CheckTechnicals(techs: seq<string>, token: string) returns (r: Option<string>)
    ensures r.Some? <==> techs == [] || ("F" in techs && token == "")
    ensures techs == [] ==> r == Some(TechnicalsEmptyError)
    ensures techs != [] && r.Some? ==> r.value == TokenError
  {
    if |techs| == 0 {
      return Some(TechnicalsEmptyError);
    }
    var ok := CheckToken(techs, token);
    r := if ok then None else Some(TokenError);
  }

  /** The default nameservers of the command tree, used when none is given. */
  const RootDefaultNameservers: seq<string> := [
    "223.5.5.5:53", "223.6.6.6:53", "8.8.8.8:53", "8.8.4.4:53", "9.9.9.9:53",
    "114.114.114.114:53", "1.2.4.8:53", "210.2.4.8:53"]

  /** The default nameservers of the library tree, used when none is given. */
  const PkgDefaultNameservers: seq<string> := [
    "223.5.5.5:53", "223.6.6.6:53", "8.8.8.8:53", "8.8.4.4:53", "9.9.9.9:53",
    "114.114.114.114:53", "114.114.115.115:53", "1.2.4.8:53", "210.2.4.8:53",
    "119.29.29.29:53"]

  /** The pool checked: the given servers, or the defaults when none is given. */
  function Pool(given: seq<string>, defaults: seq<string>): (pool: seq<string>)
    ensures given != [] ==> pool == given
    ensures given == [] ==> pool == defaults
  {
    if |given| == 0 then defaults else given
  }

  /** `checkNameserver` / `checkNameserversConnection`: prune the pool; an
      error when no server answers, else the answering servers in order. */
  method CheckNameserver(given: seq<string>, defaults: seq<string>, reach: (string, nat, nat) -> bool)
    returns (r: Result<seq<string>>)
    ensures r.Err? <==> !SomeAnswers(Pool(given, defaults), reach)
    ensures r.Err? ==> r.msg == NameserversError
    ensures r.Ok? ==> r.value == Connected(Pool(given, defaults), reach) && r.value != []
    ensures r.Ok? ==> forall ns :: ns in r.value <==>
              exists i | 0 <= i < |Pool(given, defaults)| :: Pool(given, defaults)[i] == ns && Reachable(ns, i, reach)
  {
    var pool := Pool(given, defaults);
    var unconnected, connected := RemoveUnconnectedNs(pool, reach);
    ConnectedEmpty(pool, reach);
    forall ns {
      ConnectedMembers(pool, reach, ns);
    }
    if |connected| == 0 {
      return Err(NameserversError);
    }
    return Ok(connected);
  }

  /** The library tree's `checkWildcard` given the probes' verdict: an error
      when there is a wildcard and F is not set; otherwise `HasWildcard` is
      set when there is a wildcard. */
  method PkgCheckWildcard(wildcard: bool, args: Settings) returns (r: Result<Settings>)
    ensures r.Err? <==> wildcard && "F" !in args.technicals
    ensures r.Err? ==> r.msg == WildcardError
    ensures r.Ok? ==> r.value == args.(hasWildcard := args.hasWildcard || wildcard)
  {
    if wildcard {
      if "F" !in args.technicals {
        return Err(WildcardError);
      }
      return Ok(args.(hasWildcard := true));
    }
    return Ok(args);
  }

  /** `checkArgs`: the technicals, then the nameservers, then (when asked
      for) the wildcard probes, stopping at the first error. `probes` are
      the replies to the three probes. `after` is `app.args` as the checks
      leave it, also on an error: the default pool is written back before
      the connection check and the answering servers before the wildcard
      check. `Run` returns the error before starting any stage. */
  method CheckArgs(args: Settings, reach: (string, nat, nat) -> bool, probes: seq<Option<DnsResult>>)
    returns (r: Result<Settings>, after: Settings)
    requires |probes| == 3
    ensures r.Ok? <==>
              && args.technicals != []
              && !("F" in args.technicals && args.fofaToken == "")
              && SomeAnswers(Pool(args.nameservers, PkgDefaultNameservers), reach)
              && !(args.checkWildcard && PkgWildcard(probes) && "F" !in args.technicals)
    ensures r.Ok? ==> r.value == after
    ensures r.Ok? ==> r.value == args.(nameservers := Connected(Pool(args.nameservers, PkgDefaultNameservers), reach),
                                       hasWildcard := args.hasWildcard || (args.checkWildcard && PkgWildcard(probes)))
    ensures args.technicals == [] ==> r == Err(TechnicalsEmptyError) && after == args
    ensures args.technicals != [] && "F" in args.technicals && args.fofaToken == "" ==> r == Err(TokenError) && after == args
    ensures args.technicals != [] && !("F" in args.technicals && args.fofaToken == "") ==>
              var pool := Pool(args.nameservers, PkgDefaultNameservers);
              if SomeAnswers(pool, reach) then
                after == args.(nameservers := Connected(pool, reach),
                               hasWildcard := args.hasWildcard || (args.checkWildcard && PkgWildcard(probes) && "F" in args.technicals))
              else r == Err(NameserversError) && after == args.(nameservers := pool)
  {
    after := args;
    var techErr := CheckTechnicals(args.technicals, args.fofaToken);
    if techErr.Some? {
      return Err(techErr.value), after;
    }
    after := after.(nameservers := Pool(args.nameservers, PkgDefaultNameservers));
    var pruned := CheckNameserver(args.nameservers, PkgDefaultNameservers, reach);
    if pruned.Err? {
      return Err(pruned.msg), after;
    }
    after := after.(nameservers := pruned.value);
    if args.checkWildcard {
      r := PkgCheckWildcard(PkgWildcard(probes), after);
      if r.Ok? {
        after := r.value;
      }
    } else {
      r := Ok(after);
    }
  }

  // ---------------------------------------------------------------------------
  // The command tree's mainAction

  /** How `mainAction` ends before starting the stages: an error returned to
      the CLI, an `os.Exit(1)`, or on to the stages with the settings. */
  datatype Outcome = Rejected(msg: string) | Exited | Proceed(settings: Settings)

  /** The command tree's wildcard verdict: both probes got a reply with a record. */
  predicate BothProbesHit(probes: seq<Option<DnsResult>>)
    requires |probes| == 2
  {
    forall i | 0 <= i < 2 :: probes[i].Some? && HasRecord(probes[i].value)
  }

  /** `mainAction` up to the start of the stages. `technicalsSet` is whether
      the technicals flag was given at all; `probes` are the replies to the
      two probes. `checkWildcard` sets `HasWildcard` on a wildcard even when
      the process then exits. */
  method MainAction(technicalsSet: bool, args: Settings, reach: (string, nat, nat) -> bool,
                    probes: seq<Option<DnsResult>>)
    returns (o: Outcome)
    requires |probes| == 2
    ensures o.Rejected? <==> !technicalsSet || ("F" in args.technicals && args.fofaToken == "")
    ensures !technicalsSet ==> o == Rejected(RootTechnicalsEmptyError)
    ensures technicalsSet && o.Rejected? ==> o.msg == TokenError
    ensures o.Proceed? <==>
              && technicalsSet
              && !("F" in args.technicals && args.fofaToken == "")
              && SomeAnswers(Pool(args.nameservers, RootDefaultNameservers), reach)
              && !(args.checkWildcard && BothProbesHit(probes) && "F" !in args.technicals)
    ensures o.Proceed? ==> o.settings == args.(nameservers := Connected(Pool(args.nameservers, RootDefaultNameservers), reach),
                                               hasWildcard := args.hasWildcard || (args.checkWildcard && BothProbesHit(probes)))
  {
    if !technicalsSet {
      return Rejected(RootTechnicalsEmptyError);
    }
    var ok := CheckToken(args.technicals, args.fofaToken);
    if !ok {
      return Rejected(TokenError);
    }
    var pruned := CheckNameserver(args.nameservers, RootDefaultNameservers, reach);
    if pruned.Err? {
      return Exited;
    }
    var settings := args.(nameservers := pruned.value);
    if args.checkWildcard {
      var wildcard := RootWildcard(probes);
      if wildcard {
        settings := settings.(hasWildcard := true);
        if "F" !in settings.technicals {
          return Exited;
        }
      }
    }
    return Proceed(settings);
  }

  // ---------------------------------------------------------------------------
  // Where the two trees part

  /** A technicals flag given as "" leaves no technical: the command tree
      goes on, the library tree refuses. Probes that all fail are a wildcard
      for the library tree and none for the command tree. */
  lemma TreesDiffer()
    ensures TechParts("") == []
    ensures PkgWildcard([None, None, None]) && !BothProbesHit([None, None])
    ensures |RootDefaultNameservers| == 8 && |PkgDefaultNameservers| == 10
    ensures forall ns | ns in RootDefaultNameservers :: ns in PkgDefaultNameservers
  {
  }
}

/**
 The task builder's `worker`: it walks the configured technicals in order and
 fills two channels, the brute-force task channel (dictionary words and
 length-brute labels) and the collector trigger channel. Dictionary (D) and
 length (L) tasks are skipped when the target has a wildcard record; each F
 sends the single trigger "fofa"; any other technical is skipped. A technical
 whose generator spins forever (see `Dictionary` and `BruteLength`) stops the
 walk there: nothing after it is ever built.
 */
module TaskBuilder {
  import opened Common
  import opened Dictionary
  import opened BruteLength

  /** The trigger token the collector channel carries. */
  const FofaToken: string := "fofa"

  /** `n` triggers in a row. */
  function Triggers(n: nat): (ts: seq<string>)
    ensures |ts| == n
  {
    if n == 0 then [] else [FofaToken] + Triggers(n - 1)
  }

  /** What the builder has sent on each channel, and whether it is stuck. */
  datatype Sent = Sent(brute: seq<string>, fofa: seq<string>, hangs: bool)

  const Nothing: Sent := Sent([], [], false)

  /** The configuration fields the builder reads. */
  datatype BuilderConfig = BuilderConfig(
    technicals: seq<string>, hasWildcard: bool, dictFile: string, bruteLength: string)

  /** What one technical sends, given what its generators produce. */
  function Step(tech: string, hasWildcard: bool, dict: Emission, lengths: Emission): (s: Sent)
    ensures tech != "F" ==> s.fofa == []
    ensures tech == "F" ==> s == Sent([], [FofaToken], false)
    ensures hasWildcard ==> s.brute == [] && !s.hangs
    ensures tech != "D" && tech != "L" && tech != "F" ==> s == Nothing
  {
    if tech == "D" then (if hasWildcard then Nothing else Sent(dict.items, [], dict.Hangs?))
    else if tech == "L" then (if hasWildcard then Nothing else Sent(lengths.items, [], lengths.Hangs?))
    else if tech == "F" then Sent([], [FofaToken], false)
    else Nothing
  }

  /** Running `a` and then `b`: `b` never starts if `a` is stuck. */
  function Then(a: Sent, b: Sent): Sent {
    if a.hangs then a else Sent(a.brute + b.brute, a.fofa + b.fofa, b.hangs)
  }

  lemma ThenAssoc(a: Sent, b: Sent, c: Sent)
    ensures Then(Then(a, b), c) == Then(a, Then(b, c))
  {
    if !a.hangs && !b.hangs {
      AppendAssoc(a.brute, b.brute, c.brute);
      AppendAssoc(a.fofa, b.fofa, c.fofa);
    }
  }

  /** What the builder sends for a list of technicals. */
  function BuildTasks(techs: seq<string>, hasWildcard: bool, dict: Emission, lengths: Emission): Sent {
    if techs == [] then Nothing
    else Then(Step(techs[0], hasWildcard, dict, lengths), BuildTasks(techs[1..], hasWildcard, dict, lengths))
  }

  /** Technicals are handled one after another: the tasks of `a + b` are those
      of `a` followed by those of `b`, unless `a` got stuck. */
  lemma {:induction false} BuildTasksAppend(a: seq<string>, b: seq<string>, w: bool, dict: Emission, lengths: Emission)
    ensures BuildTasks(a + b, w, dict, lengths) == Then(BuildTasks(a, w, dict, lengths), BuildTasks(b, w, dict, lengths))
  {
    if a == [] {
      assert a + b == b;
    } else {
      assert (a + b)[0] == a[0];
      assert (a + b)[1..] == a[1..] + b;
      BuildTasksAppend(a[1..], b, w, dict, lengths);
      ThenAssoc(Step(a[0], w, dict, lengths), BuildTasks(a[1..], w, dict, lengths), BuildTasks(b, w, dict, lengths));
    }
  }

  /** An unknown technical is skipped and does not affect the others. */
  lemma UnknownTechnicalSkipped(t: string, rest: seq<string>, w: bool, dict: Emission, lengths: Emission)
    requires t != "D" && t != "L" && t != "F"
    ensures BuildTasks([t] + rest, w, dict, lengths) == BuildTasks(rest, w, dict, lengths)
  {
    assert ([t] + rest)[1..] == rest;
  }

  /** With a wildcard record no brute-force task is sent and the builder never gets stuck. */
  lemma {:induction false} WildcardSendsNoBrute(techs: seq<string>, dict: Emission, lengths: Emission)
    ensures BuildTasks(techs, true, dict, lengths).brute == [] && !BuildTasks(techs, true, dict, lengths).hangs
  {
    if techs != [] {
      var step, rest := Step(techs[0], true, dict, lengths), BuildTasks(techs[1..], true, dict, lengths);
      assert BuildTasks(techs, true, dict, lengths) == Then(step, rest);
      WildcardSendsNoBrute(techs[1..], dict, lengths);
    }
  }

  /** With a wildcard record no brute-force task is sent, the builder never
      gets stuck, and the collector gets one trigger per F. */
  lemma WildcardSendsOnlyTriggers(techs: seq<string>, dict: Emission, lengths: Emission)
    ensures var s := BuildTasks(techs, true, dict, lengths);
            s.brute == [] && !s.hangs && s.fofa == Triggers(Count(techs, "F"))
  {
    WildcardSendsNoBrute(techs, dict, lengths);
    TriggerCount(techs, true, dict, lengths);
  }

  /** F sends one trigger and nothing else does. */
  lemma StepFofa(t: string, w: bool, dict: Emission, lengths: Emission)
    ensures Step(t, w, dict, lengths).fofa == if t == "F" then [FofaToken] else []
  {
  }

  /** The weighted count after one more technical, which adds `a` when it is a D and `b` when it is an L. */
  lemma WeightStep(nD: nat, nL: nat, cD: nat, cL: nat, a: nat, b: nat, isD: bool, isL: bool)
    requires nD == cD + (if isD then 1 else 0) && nL == cL + (if isL then 1 else 0)
    ensures nD * a + nL * b == (if isD then a else 0) + (if isL then b else 0) + (cD * a + cL * b)
  {
    if isD {
      assert (cD + 1) * a == cD * a + a;
    }
    if isL {
      assert (cL + 1) * b == cL * b + b;
    }
  }

  /** When nothing gets stuck, the collector gets exactly one trigger per F. */
  lemma {:induction false} TriggerCount(techs: seq<string>, w: bool, dict: Emission, lengths: Emission)
    requires !BuildTasks(techs, w, dict, lengths).hangs
    ensures BuildTasks(techs, w, dict, lengths).fofa == Triggers(Count(techs, "F"))
  {
    if techs != [] {
      var t := techs[0];
      var step, rest := Step(t, w, dict, lengths), BuildTasks(techs[1..], w, dict, lengths);
      assert BuildTasks(techs, w, dict, lengths) == Then(step, rest);
      assert !step.hangs;
      TriggerCount(techs[1..], w, dict, lengths);
      StepFofa(t, w, dict, lengths);
      assert Count(techs, "F") == (if t == "F" then 1 else 0) + Count(techs[1..], "F");
    }
  }

  /** Without a wildcard, D sends the dictionary and L the labels; nothing else reaches the brute channel. */
  lemma StepBrute(t: string, dict: Emission, lengths: Emission)
    ensures |Step(t, false, dict, lengths).brute| == (if t == "D" then |dict.items| else 0) + (if t == "L" then |lengths.items| else 0)
  {
  }

  /** When nothing gets stuck and there is no wildcard, the brute channel gets
      the dictionary once per D and the labels once per L, so its length is
      the weighted count of D and L. */
  lemma {:induction false} BruteCount(techs: seq<string>, dict: Emission, lengths: Emission)
    requires !BuildTasks(techs, false, dict, lengths).hangs
    ensures |BuildTasks(techs, false, dict, lengths).brute|
            == Count(techs, "D") * |dict.items| + Count(techs, "L") * |lengths.items|
  {
    if techs != [] {
      var t := techs[0];
      var step, rest := Step(t, false, dict, lengths), BuildTasks(techs[1..], false, dict, lengths);
      assert BuildTasks(techs, false, dict, lengths) == Then(step, rest);
      assert !step.hangs;
      BruteCount(techs[1..], dict, lengths);
      assert |BuildTasks(techs, false, dict, lengths).brute| == |step.brute| + |rest.brute|;
      StepBrute(t, dict, lengths);
      WeightStep(Count(techs, "D"), Count(techs, "L"), Count(techs[1..], "D"), Count(techs[1..], "L"),
                 |dict.items|, |lengths.items|, t == "D", t == "L");
    }
  }

  /** A technical that gets stuck ends the walk: the technicals after it send nothing. */
  lemma StuckStepStopsWalk(t: string, rest: seq<string>, w: bool, dict: Emission, lengths: Emission)
    requires Step(t, w, dict, lengths).hangs
    ensures BuildTasks([t] + rest, w, dict, lengths) == Step(t, w, dict, lengths)
  {
    assert ([t] + rest)[1..] == rest;
  }

  /** One technical as the builder handles it: D rebuilds the dictionary
      tasks (`file` is the dictionary file's content, `None` when it cannot be
      opened; `innerDict` the built-in list), L rebuilds the length tasks, F
      sends the trigger; all are skipped as `Step` says. */
  method RunTechnical(tech: string, cfg: BuilderConfig, file: Option<string>, innerDict: string)
    returns (step: Sent)
    ensures step == Step(tech, cfg.hasWildcard, BuildDictTask(cfg.dictFile, file, innerDict),
                         BruteLengthOutcome(cfg.bruteLength))
  {
    step := Nothing;
    if tech == "D" {
      if !cfg.hasWildcard {
        var words: Emission;
        if cfg.dictFile != "" && file.Some? {
          words := ReadDictFile(file.value);
        } else {
          words := BuildDictTask(cfg.dictFile, file, innerDict);
        }
        step := Sent(words.items, [], words.Hangs?);
      }
    } else if tech == "L" {
      if !cfg.hasWildcard {
        var labels := BuildBruteLengthTask(cfg.bruteLength);
        step := Sent(labels.items, [], labels.Hangs?);
      }
    } else if tech == "F" {
      step := Sent([], [FofaToken], false);
    }
  }

  /** One more technical: the tasks of the first `i + 1` are those of the
      first `i` followed by what technical `i` sends. */
  lemma BuildTasksSnoc(techs: seq<string>, i: nat, w: bool, dict: Emission, lengths: Emission)
    requires i < |techs|
    ensures BuildTasks(techs[..i + 1], w, dict, lengths)
            == Then(BuildTasks(techs[..i], w, dict, lengths), Step(techs[i], w, dict, lengths))
  {
    assert techs[..i + 1] == techs[..i] + [techs[i]];
    BuildTasksAppend(techs[..i], [techs[i]], w, dict, lengths);
    assert [techs[i]][1..] == [];
  }

  /** Once a prefix is stuck, the whole list sends what the prefix sent. */
  lemma BuildTasksStuckPrefix(techs: seq<string>, i: nat, w: bool, dict: Emission, lengths: Emission)
    requires i <= |techs|
    requires BuildTasks(techs[..i], w, dict, lengths).hangs
    ensures BuildTasks(techs, w, dict, lengths) == BuildTasks(techs[..i], w, dict, lengths)
  {
    assert techs == techs[..i] + techs[i..];
    BuildTasksAppend(techs[..i], techs[i..], w, dict, lengths);
  }

  /** One round of the builder's loop: technical `i` is run after the first `i`. */
  method WorkerStep(cfg: BuilderConfig, file: Option<string>, innerDict: string, i: nat, sent: Sent)
    returns (next: Sent)
    requires i < |cfg.technicals|
    requires sent == BuildTasks(cfg.technicals[..i], cfg.hasWildcard, BuildDictTask(cfg.dictFile, file, innerDict),
                                BruteLengthOutcome(cfg.bruteLength))
    ensures next == BuildTasks(cfg.technicals[..i + 1], cfg.hasWildcard, BuildDictTask(cfg.dictFile, file, innerDict),
                               BruteLengthOutcome(cfg.bruteLength))
  {
    var step := RunTechnical(cfg.technicals[i], cfg, file, innerDict);
    BuildTasksSnoc(cfg.technicals, i, cfg.hasWildcard, BuildDictTask(cfg.dictFile, file, innerDict),
                   BruteLengthOutcome(cfg.bruteLength));
    next := Then(sent, step);
  }

  /** The builder's `worker` loop over the technicals; it stops at the first
      technical that gets stuck. */
  method Worker(cfg: BuilderConfig, file: Option<string>, innerDict: string) returns (sent: Sent)
    ensures sent == BuildTasks(cfg.technicals, cfg.hasWildcard,
                               BuildDictTask(cfg.dictFile, file, innerDict),
                               BruteLengthOutcome(cfg.bruteLength))
  {
    ghost var dict := BuildDictTask(cfg.dictFile, file, innerDict);
    ghost var lengths := BruteLengthOutcome(cfg.bruteLength);
    sent := Nothing;
    var i := 0;
    while i < |cfg.technicals| && !sent.hangs
      invariant i <= |cfg.technicals|
      invariant sent == BuildTasks(cfg.technicals[..i], cfg.hasWildcard, dict, lengths)
    {
      sent := WorkerStep(cfg, file, innerDict, i, sent);
      i := i + 1;
    }
    if i < |cfg.technicals| {
      BuildTasksStuckPrefix(cfg.technicals, i, cfg.hasWildcard, dict, lengths);
    } else {
      assert cfg.technicals[..i] == cfg.technicals;
    }
  }
}

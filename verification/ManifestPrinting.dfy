/**
 A canonical printout of a scene, and its round trip through the manifest parser.
 */
module ManifestPrinting {
  import opened Options
  import opened Machine
  import opened Scenes
  import opened Json
  import opened Manifest

  /** A time that a manifest can write: whole milliseconds, of 64 bits. */
  predicate WholeMs(ns: int) {
    ns % NS_PER_MS == 0 && -0x8000_0000_0000_0000 <= ns / NS_PER_MS < 0x8000_0000_0000_0000
  }

  predicate PrintableRule(c: Config) {
    WholeMs(c.confirmWindow) && WholeMs(c.maxGap) && WholeMs(c.sustain) && '=' !in c.id
  }

  predicate PrintableTruth(t: Truth) {
    WholeMs(t.at) && WholeMs(t.before) && WholeMs(t.after)
  }

  /** A well-formed scene with times in milliseconds, identifiers without '=', and no
      frame called "-". */
  predicate Printable(sc: Scene) {
    && WellFormed(sc)
    && WholeMs(sc.tick)
    && (forall i :: 0 <= i < |sc.rules| ==> PrintableRule(sc.rules[i]))
    && (forall i :: 0 <= i < |sc.truth| ==> PrintableTruth(sc.truth[i]))
    && (forall i :: 0 <= i < |sc.restarts| ==> WholeMs(sc.restarts[i]))
    && (forall i :: 0 <= i < |sc.samples| ==> WholeMs(sc.samples[i].at) && sc.samples[i].frame != "-")
  }

  // ---------------------------------------------------------------- the printout

  function Ms(ns: int): string {
    Signed(ns / NS_PER_MS)
  }

  function ValueName(v: Value): string {
    match v
    case Yes => "yes"
    case No => "no"
    case Unknown => "unknown"
  }

  function PrintRule(c: Config): seq<string> {
    ["rule", c.id, if c.kind.Appeared? then "appeared" else "sustained", ValueName(c.target),
     Decimal(c.confirmCount), Ms(c.confirmWindow), Ms(c.maxGap)]
      + if c.kind.Appeared? then [] else [Ms(c.sustain)]
  }

  function PrintRules(rules: seq<Config>, n: nat): seq<seq<string>>
    requires n <= |rules|
  {
    if n == 0 then [] else PrintRules(rules, n - 1) + [PrintRule(rules[n - 1])]
  }

  /** Every event is preceded by its match window. */
  function PrintTruth(rules: seq<Config>, truth: seq<Truth>, n: nat): seq<seq<string>>
    requires n <= |truth| && forall i :: 0 <= i < n ==> truth[i].rule < |rules|
  {
    if n == 0 then []
    else
      var t := truth[n - 1];
      PrintTruth(rules, truth, n - 1)
        + [["match_window", Ms(t.after), Ms(t.before)]] + [["truth", rules[t.rule].id, t.eventType, Ms(t.at)]]
  }

  function PrintRestarts(restarts: seq<int>, n: nat): seq<seq<string>>
    requires n <= |restarts|
  {
    if n == 0 then [] else PrintRestarts(restarts, n - 1) + [["restart", Ms(restarts[n - 1])]]
  }

  /** The labels of the rules below `n`, in order. */
  function PrintLabels(rules: seq<Config>, labels: map<nat, Value>, n: nat): seq<string>
    requires n <= |rules|
  {
    if n == 0 then []
    else if n - 1 in labels then PrintLabels(rules, labels, n - 1) + [rules[n - 1].id + "=" + ValueName(labels[n - 1])]
    else PrintLabels(rules, labels, n - 1)
  }

  function PrintSample(rules: seq<Config>, smp: Sample): seq<string> {
    ["sample", Ms(smp.at), if smp.frame == "" then "-" else smp.frame] + PrintLabels(rules, smp.labels, |rules|)
  }

  function PrintSamples(rules: seq<Config>, samples: seq<Sample>, n: nat): seq<seq<string>>
    requires n <= |samples|
  {
    if n == 0 then [] else PrintSamples(rules, samples, n - 1) + [PrintSample(rules, samples[n - 1])]
  }

  function PrintHead(sc: Scene): seq<seq<string>> {
    [["version", "1"]] + [["scene", sc.name]] + [["camera", sc.camera]]
      + [["split", if sc.split.Dev? then "dev" else "test"]] + [["tick_ms", Ms(sc.tick)]]
  }

  function Print(sc: Scene): seq<seq<string>>
    requires WellFormed(sc)
  {
    PrintHead(sc) + PrintRules(sc.rules, |sc.rules|) + PrintTruth(sc.rules, sc.truth, |sc.truth|)
      + PrintRestarts(sc.restarts, |sc.restarts|) + PrintSamples(sc.rules, sc.samples, |sc.samples|)
  }

  // ---------------------------------------------------------------- tokens read back

  lemma IntegerReads(n: int)
    requires -0x8000_0000_0000_0000 <= n < 0x8000_0000_0000_0000
    ensures ParseI64(Some(Signed(n))) == Some(n)
  {
    SignedReads(n, "");
    assert Signed(n) + "" == Signed(n);
    assert Signed(n) != "" && Signed(n)[0] != '+';
    hide Signed, ReadSigned;
  }

  lemma MsReads(ns: int)
    requires WholeMs(ns)
    ensures ParseI64(Some(Ms(ns))) == Some(ns / NS_PER_MS) && (ns / NS_PER_MS) * NS_PER_MS == ns
  {
    IntegerReads(ns / NS_PER_MS);
  }

  lemma CountReads(n: U32)
    ensures ParseU32(Some(Decimal(n))) == Some(n)
  {
    IntegerReads(n);
    assert Signed(n) == Decimal(n);
    hide ParseI64, Decimal;
  }

  lemma ValueReads(v: Value)
    ensures ParseValue(Some(ValueName(v))) == Some(v)
  {
  }

  lemma FindsRule(rules: seq<Config>, r: nat)
    requires r < |rules| && UniqueIds(rules)
    ensures FindRule(rules, rules[r].id) == Some(r)
  {
    hide FindFrom;
  }

  lemma {:induction false} EqualsFound(id: string, rest: string)
    requires '=' !in id
    ensures EqualsAt(id + "=" + rest) == |id|
  {
    if id == "" {
      assert id + "=" + rest == "=" + rest;
    } else {
      assert (id + "=" + rest)[1..] == id[1..] + "=" + rest;
      EqualsFound(id[1..], rest);
    }
  }

  lemma LabelReads(rules: seq<Config>, r: nat, v: Value)
    requires r < |rules| && UniqueIds(rules) && '=' !in rules[r].id
    ensures ReadLabel(rules, rules[r].id + "=" + ValueName(v)) == Some((r, v))
  {
    var id := rules[r].id;
    var tok := id + "=" + ValueName(v);
    EqualsFound(id, ValueName(v));
    assert tok[..|id|] == id && tok[|id| + 1..] == ValueName(v);
    FindsRule(rules, r);
    ValueReads(v);
    hide ValueName, ParseValue, FindRule, EqualsAt;
  }

  lemma {:induction false} LabelsOfPrefix(rules: seq<Config>, toks: seq<string>, more: seq<string>, n: nat)
    requires n <= |toks|
    ensures ReadLabels(rules, toks + more, n) == ReadLabels(rules, toks, n)
  {
    if n > 0 {
      LabelsOfPrefix(rules, toks, more, n - 1);
    }
  }

  function LabelsBelow(labels: map<nat, Value>, n: nat): map<nat, Value> {
    map r | r in labels && r < n :: labels[r]
  }

  lemma {:induction false} LabelsReadBack(rules: seq<Config>, labels: map<nat, Value>, n: nat)
    requires n <= |rules| && UniqueIds(rules) && forall i :: 0 <= i < |rules| ==> '=' !in rules[i].id
    ensures var toks := PrintLabels(rules, labels, n);
            ReadLabels(rules, toks, |toks|) == Some(LabelsBelow(labels, n))
  {
    hide ReadLabel, UniqueIds;
    if n > 0 {
      LabelsReadBack(rules, labels, n - 1);
      var before := PrintLabels(rules, labels, n - 1);
      if n - 1 in labels {
        var tok := rules[n - 1].id + "=" + ValueName(labels[n - 1]);
        LabelsOfPrefix(rules, before, [tok], |before|);
        LabelReads(rules, n - 1, labels[n - 1]);
        assert LabelsBelow(labels, n) == LabelsBelow(labels, n - 1)[n - 1 := labels[n - 1]];
      } else {
        assert LabelsBelow(labels, n) == LabelsBelow(labels, n - 1);
      }
    } else {
      assert LabelsBelow(labels, 0) == map[];
    }
  }

  // ---------------------------------------------------------------- lines read back

  lemma {:induction false} LinesConcat(st: State, a: seq<seq<string>>, b: seq<seq<string>>)
    ensures Lines(st, a + b) ==
            match Lines(st, a)
            case Refused(status) => Refused(status)
            case Parsed(st') => Lines(st', b)
    decreases |a|
  {
    hide Line;
    if a == [] {
      assert a + b == b;
    } else {
      assert (a + b)[0] == a[0] && (a + b)[1..] == a[1..] + b;
      match Line(st, a[0])
      case Refused(status) =>
      case Parsed(st') => LinesConcat(st', a[1..], b);
    }
  }

  lemma LinesAppend(st: State, st': State, a: seq<seq<string>>, line: seq<string>)
    requires Lines(st, a) == Parsed(st')
    ensures Lines(st, a + [line]) == Line(st', line)
  {
    LinesConcat(st, a, [line]);
    assert Lines(st', [line]) == match Line(st', line)
      case Refused(status) => Refused(status)
      case Parsed(t) => Lines(t, []);
  }

  /** The state after the first `n` lines of the printout. */
  function Headed(sc: Scene, n: nat): State {
    State(Scene(if n > 1 then sc.name else "", if n > 2 then sc.camera else "", if n > 3 then sc.split else Dev,
                [], [], [], if n > 4 then sc.tick else 0, []),
          n > 0, 0, 0)
  }

  lemma HeadLines(sc: Scene)
    requires Printable(sc)
    ensures Line(START, ["version", "1"]) == Parsed(Headed(sc, 1))
    ensures Line(Headed(sc, 1), ["scene", sc.name]) == Parsed(Headed(sc, 2))
    ensures Line(Headed(sc, 2), ["camera", sc.camera]) == Parsed(Headed(sc, 3))
    ensures Line(Headed(sc, 3), ["split", if sc.split.Dev? then "dev" else "test"]) == Parsed(Headed(sc, 4))
    ensures Line(Headed(sc, 4), ["tick_ms", Ms(sc.tick)]) == Parsed(Headed(sc, 5))
  {
    hide WellFormed, PrintableRule, PrintableTruth, ParseI64, Ms;
    IntegerReads(1);
    assert Signed(1) == "1";
    MsReads(sc.tick);
    NamesFit(sc);
  }

  lemma HeadReads(sc: Scene)
    requires Printable(sc)
    ensures Lines(START, PrintHead(sc)) == Parsed(Headed(sc, 5))
  {
    hide Printable, Line, Headed;
    HeadLines(sc);
    var a, b, c := ["version", "1"], ["scene", sc.name], ["camera", sc.camera];
    var d, e := ["split", if sc.split.Dev? then "dev" else "test"], ["tick_ms", Ms(sc.tick)];
    assert [] + [a] == [a];
    LinesAppend(START, START, [], a);
    LinesAppend(START, Headed(sc, 1), [a], b);
    LinesAppend(START, Headed(sc, 2), [a] + [b], c);
    LinesAppend(START, Headed(sc, 3), [a] + [b] + [c], d);
    LinesAppend(START, Headed(sc, 4), [a] + [b] + [c] + [d], e);
  }

  lemma NamesFit(sc: Scene)
    requires WellFormed(sc)
    ensures 0 < |sc.name| < TYPE_CAP && 0 < |sc.camera| < ID_CAP && sc.tick > 0
  {
  }

  lemma RuleKeyword(st: State, line: seq<string>)
    requires st.sawVersion && line != [] && line[0] == "rule"
    ensures Line(st, line) == RuleLine(st, line[1..])
  {
    hide RuleLine, ParseI64;
  }

  lemma TruthKeyword(st: State, line: seq<string>)
    requires st.sawVersion && line != [] && line[0] == "truth"
    ensures Line(st, line) == TruthLine(st, line[1..])
  {
    hide TruthLine, ParseI64;
  }

  lemma SampleKeyword(st: State, line: seq<string>)
    requires st.sawVersion && line != [] && line[0] == "sample"
    ensures Line(st, line) == SampleLine(st, line[1..])
  {
    hide SampleLine, ParseI64;
  }

  lemma NotYet(rules: seq<Config>, k: nat)
    requires k < |rules| && UniqueIds(rules)
    ensures FindRule(rules[..k], rules[k].id).None?
  {
    hide FindFrom;
  }

  /** `toks` says, token by token, what the rule is. */
  predicate RuleTokens(c: Config, toks: seq<string>) {
    && Tok(toks, 0) == Some(c.id) && KindOf(Tok(toks, 1)) == Some(c.kind) && ParseValue(Tok(toks, 2)) == Some(c.target)
    && ParseU32(Tok(toks, 3)) == Some(c.confirmCount)
    && ParseI64(Tok(toks, 4)) == Some(c.confirmWindow / NS_PER_MS)
    && ParseI64(Tok(toks, 5)) == Some(c.maxGap / NS_PER_MS)
    && SustainOf(c.kind, Tok(toks, 6)) == Some(c.sustain)
  }

  lemma RuleNumbersRead(c: Config)
    requires PrintableRule(c)
    ensures ParseU32(Some(Decimal(c.confirmCount))) == Some(c.confirmCount)
    ensures ParseI64(Some(Ms(c.confirmWindow))) == Some(c.confirmWindow / NS_PER_MS)
    ensures ParseI64(Some(Ms(c.maxGap))) == Some(c.maxGap / NS_PER_MS)
    ensures SustainOf(Sustained, Some(Ms(c.sustain))) == Some(c.sustain)
  {
    CountReads(c.confirmCount);
    MsReads(c.confirmWindow);
    MsReads(c.maxGap);
    MsReads(c.sustain);
    hide ParseI64, ParseU32, Ms, Decimal;
  }

  lemma RuleTokensPrinted(c: Config)
    requires RuleRead(c) && PrintableRule(c)
    ensures PrintRule(c) != [] && PrintRule(c)[0] == "rule" && RuleTokens(c, PrintRule(c)[1..])
  {
    hide ParseI64, ParseU32, ParseValue, Ms, Decimal, ValueName, PrintableRule;
    RuleNumbersRead(c);
    ValueReads(c.target);
    var toks := PrintRule(c)[1..];
    assert Tok(toks, 6) == if c.kind.Appeared? then None else Some(Ms(c.sustain));
  }

  lemma RuleReads(st: State, rules: seq<Config>, k: nat)
    requires st.sawVersion && k < |rules| <= MAX_RULES && st.scene.rules == rules[..k]
    requires UniqueIds(rules) && RuleRead(rules[k]) && PrintableRule(rules[k])
    ensures Line(st, PrintRule(rules[k])) == Parsed(st.(scene := st.scene.(rules := rules[..k + 1])))
  {
    hide Line, ParseI64, ParseU32, ParseValue, FindRule, UniqueIds, WholeMs, PrintRule, KindOf, SustainOf;
    var c := rules[k];
    RuleTokensPrinted(c);
    RuleKeyword(st, PrintRule(c));
    NotYet(rules, k);
    assert (c.confirmWindow / NS_PER_MS) * NS_PER_MS == c.confirmWindow by {
      MsReads(c.confirmWindow);
    }
    assert (c.maxGap / NS_PER_MS) * NS_PER_MS == c.maxGap by {
      MsReads(c.maxGap);
    }
    assert rules[..k] + [c] == rules[..k + 1];
  }

  lemma {:induction false} RulesReadBack(st: State, rules: seq<Config>, n: nat)
    requires st.sawVersion && n <= |rules| <= MAX_RULES && st.scene.rules == [] && UniqueIds(rules)
    requires forall i :: 0 <= i < |rules| ==> RuleRead(rules[i]) && PrintableRule(rules[i])
    ensures Lines(st, PrintRules(rules, n)) == Parsed(st.(scene := st.scene.(rules := rules[..n])))
  {
    hide Line, PrintRule, UniqueIds, RuleRead, PrintableRule;
    if n == 0 {
      assert rules[..0] == [];
    } else {
      RulesReadBack(st, rules, n - 1);
      var st' := st.(scene := st.scene.(rules := rules[..n - 1]));
      LinesAppend(st, st', PrintRules(rules, n - 1), PrintRule(rules[n - 1]));
      RuleReads(st', rules, n - 1);
    }
  }

  lemma WindowReads(st: State, t: Truth)
    requires st.sawVersion && PrintableTruth(t) && t.after > 0 && t.before >= 0
    ensures Line(st, ["match_window", Ms(t.after), Ms(t.before)]) == Parsed(st.(after := t.after, before := t.before))
  {
    MsReads(t.after);
    MsReads(t.before);
    hide ParseI64, Ms, WholeMs;
    var toks := [Ms(t.after), Ms(t.before)];
    assert ["match_window", Ms(t.after), Ms(t.before)][1..] == toks;
    assert BeforeOf(Tok(toks, 1)) == Some(t.before);
    assert WindowLine(st, toks) == Parsed(st.(after := t.after, before := t.before));
    hide WindowLine;
  }

  lemma TruthReads(st: State, rules: seq<Config>, truth: seq<Truth>, k: nat)
    requires st.sawVersion && st.scene.rules == rules && UniqueIds(rules) && k < |truth| <= MAX_TRUTH
    requires st.scene.truth == truth[..k] && st.after == truth[k].after && st.before == truth[k].before
    requires TruthOrdered(truth) && TruthRead(rules, truth[k]) && PrintableTruth(truth[k])
    ensures Line(st, ["truth", rules[truth[k].rule].id, truth[k].eventType, Ms(truth[k].at)]) ==
            Parsed(st.(scene := st.scene.(truth := truth[..k + 1])))
  {
    hide Line, ParseI64, Ms, FindRule, WholeMs, UniqueIds;
    var t := truth[k];
    var line := ["truth", rules[t.rule].id, t.eventType, Ms(t.at)];
    TruthKeyword(st, line);
    MsReads(t.at);
    FindsRule(rules, t.rule);
    assert k > 0 ==> truth[k - 1].at <= t.at;
    hide TruthOrdered;
    TruthTokens(st, line[1..], t);
    assert truth[..k] + [t] == truth[..k + 1];
  }

  lemma TruthTokens(st: State, toks: seq<string>, t: Truth)
    requires |st.scene.truth| < MAX_TRUTH && |toks| == 3 && FindRule(st.scene.rules, toks[0]) == Some(t.rule)
    requires toks[1] == t.eventType && 0 < |t.eventType| < TYPE_CAP && t.after > 0
    requires ParseI64(Some(toks[2])) == Some(t.at / NS_PER_MS) && (t.at / NS_PER_MS) * NS_PER_MS == t.at
    requires st.after == t.after && st.before == t.before
    requires st.scene.truth != [] ==> st.scene.truth[|st.scene.truth| - 1].at <= t.at
    ensures TruthLine(st, toks) == Parsed(st.(scene := st.scene.(truth := st.scene.truth + [t])))
  {
    hide ParseI64, FindRule;
  }

  lemma {:induction false} TruthReadBack(st: State, rules: seq<Config>, truth: seq<Truth>, n: nat)
    returns (end: State)
    requires st.sawVersion && st.scene.rules == rules && UniqueIds(rules) && n <= |truth| <= MAX_TRUTH
    requires st.scene.truth == [] && TruthOrdered(truth)
    requires forall i :: 0 <= i < |truth| ==> truth[i].rule < |rules|
    requires forall i :: 0 <= i < |truth| ==> TruthRead(rules, truth[i]) && PrintableTruth(truth[i])
    ensures Lines(st, PrintTruth(rules, truth, n)) == Parsed(end)
    ensures end.scene == st.scene.(truth := truth[..n]) && end.sawVersion
  {
    hide Line, UniqueIds, TruthOrdered, Ms, PrintableTruth;
    if n == 0 {
      assert truth[..0] == [];
      end := st;
    } else {
      var mid := TruthReadBack(st, rules, truth, n - 1);
      var t := truth[n - 1];
      var before := PrintTruth(rules, truth, n - 1);
      var window := ["match_window", Ms(t.after), Ms(t.before)];
      var line := ["truth", rules[t.rule].id, t.eventType, Ms(t.at)];
      WindowReads(mid, t);
      var ready := mid.(after := t.after, before := t.before);
      LinesAppend(st, mid, before, window);
      TruthReads(ready, rules, truth, n - 1);
      LinesAppend(st, ready, before + [window], line);
      end := ready.(scene := ready.scene.(truth := truth[..n]));
    }
  }

  lemma RestartReads(st: State, restarts: seq<int>, k: nat)
    requires st.sawVersion && k < |restarts| <= MAX_RESTARTS && st.scene.restarts == restarts[..k]
    requires RestartsOrdered(restarts) && restarts[k] >= 0 && WholeMs(restarts[k])
    ensures Line(st, ["restart", Ms(restarts[k])]) == Parsed(st.(scene := st.scene.(restarts := restarts[..k + 1])))
  {
    MsReads(restarts[k]);
    hide ParseI64, Ms, WholeMs;
    var toks := [Ms(restarts[k])];
    assert ["restart", Ms(restarts[k])][1..] == toks;
    assert restarts[..k] + [restarts[k]] == restarts[..k + 1];
    assert k > 0 ==> restarts[..k][k - 1] <= restarts[k];
    assert RestartLine(st, toks) == Parsed(st.(scene := st.scene.(restarts := restarts[..k + 1])));
    hide RestartLine;
  }

  lemma {:induction false} RestartsReadBack(st: State, restarts: seq<int>, n: nat)
    requires st.sawVersion && n <= |restarts| <= MAX_RESTARTS && st.scene.restarts == []
    requires RestartsOrdered(restarts) && forall i :: 0 <= i < |restarts| ==> restarts[i] >= 0 && WholeMs(restarts[i])
    ensures Lines(st, PrintRestarts(restarts, n)) == Parsed(st.(scene := st.scene.(restarts := restarts[..n])))
  {
    hide Line, RestartsOrdered, Ms, WholeMs;
    if n == 0 {
      assert restarts[..0] == [];
    } else {
      RestartsReadBack(st, restarts, n - 1);
      var st' := st.(scene := st.scene.(restarts := restarts[..n - 1]));
      LinesAppend(st, st', PrintRestarts(restarts, n - 1), ["restart", Ms(restarts[n - 1])]);
      RestartReads(st', restarts, n - 1);
    }
  }

  predicate PrintableSample(smp: Sample) {
    WholeMs(smp.at) && smp.frame != "-"
  }

  lemma SampleReads(st: State, rules: seq<Config>, samples: seq<Sample>, k: nat)
    requires st.sawVersion && st.scene.rules == rules != [] && UniqueIds(rules) && k < |samples| <= MAX_SAMPLES
    requires forall i :: 0 <= i < |rules| ==> '=' !in rules[i].id
    requires st.scene.samples == samples[..k] && (k > 0 ==> samples[k - 1].at <= samples[k].at)
    requires SampleRead(rules, samples[k]) && PrintableSample(samples[k])
    ensures Line(st, PrintSample(rules, samples[k])) == Parsed(st.(scene := st.scene.(samples := samples[..k + 1])))
  {
    hide Line, ParseI64, Ms, WholeMs, UniqueIds, PrintLabels, ReadLabels;
    var smp := samples[k];
    var line, labels := PrintSample(rules, smp), PrintLabels(rules, smp.labels, |rules|);
    SampleKeyword(st, line);
    MsReads(smp.at);
    LabelsReadBack(rules, smp.labels, |rules|);
    assert LabelsBelow(smp.labels, |rules|) == smp.labels;
    hide LabelsBelow;
    assert line[1..][2..] == labels;
    SampleTokens(st, line[1..], smp);
    assert samples[..k] + [smp] == samples[..k + 1];
  }

  lemma SampleTokens(st: State, toks: seq<string>, smp: Sample)
    requires st.scene.rules != [] && |st.scene.samples| < MAX_SAMPLES && |toks| >= 2
    requires toks[1] == (if smp.frame == "" then "-" else smp.frame) && |smp.frame| < PATH_CAP && smp.frame != "-"
    requires ParseI64(Some(toks[0])) == Some(smp.at / NS_PER_MS) && (smp.at / NS_PER_MS) * NS_PER_MS == smp.at
    requires ReadLabels(st.scene.rules, toks[2..], |toks| - 2) == Some(smp.labels)
    requires st.scene.samples != [] ==> st.scene.samples[|st.scene.samples| - 1].at <= smp.at
    ensures SampleLine(st, toks) == Parsed(st.(scene := st.scene.(samples := st.scene.samples + [smp])))
  {
    hide ParseI64, ReadLabels;
  }

  lemma {:induction false} SamplesReadBack(st: State, rules: seq<Config>, samples: seq<Sample>, n: nat)
    requires st.sawVersion && st.scene.rules == rules != [] && UniqueIds(rules) && n <= |samples| <= MAX_SAMPLES
    requires forall i :: 0 <= i < |rules| ==> '=' !in rules[i].id
    requires st.scene.samples == [] && forall i, j :: 0 <= i < j < |samples| ==> samples[i].at <= samples[j].at
    requires forall i :: 0 <= i < |samples| ==> SampleRead(rules, samples[i]) && PrintableSample(samples[i])
    ensures Lines(st, PrintSamples(rules, samples, n)) == Parsed(st.(scene := st.scene.(samples := samples[..n])))
  {
    hide Line, UniqueIds, PrintSample, SampleRead, PrintableSample;
    if n == 0 {
      assert samples[..0] == [];
    } else {
      SamplesReadBack(st, rules, samples, n - 1);
      var st' := st.(scene := st.scene.(samples := samples[..n - 1]));
      LinesAppend(st, st', PrintSamples(rules, samples, n - 1), PrintSample(rules, samples[n - 1]));
      SampleReads(st', rules, samples, n - 1);
    }
  }

  // ---------------------------------------------------------------- the round trip

  /** The parts of well-formedness that the sections of the printout need. */
  lemma Parts(sc: Scene)
    requires Printable(sc)
    ensures |sc.rules| <= MAX_RULES && UniqueIds(sc.rules) && sc.rules != []
    ensures forall i :: 0 <= i < |sc.rules| ==>
      RuleRead(sc.rules[i]) && PrintableRule(sc.rules[i]) && '=' !in sc.rules[i].id
    ensures |sc.truth| <= MAX_TRUTH && TruthOrdered(sc.truth)
    ensures forall i :: 0 <= i < |sc.truth| ==> sc.truth[i].rule < |sc.rules|
    ensures forall i :: 0 <= i < |sc.truth| ==> TruthRead(sc.rules, sc.truth[i]) && PrintableTruth(sc.truth[i])
    ensures |sc.restarts| <= MAX_RESTARTS && RestartsOrdered(sc.restarts)
    ensures forall i :: 0 <= i < |sc.restarts| ==> sc.restarts[i] >= 0 && WholeMs(sc.restarts[i])
    ensures |sc.samples| <= MAX_SAMPLES
            && forall i, j :: 0 <= i < j < |sc.samples| ==> sc.samples[i].at <= sc.samples[j].at
    ensures forall i :: 0 <= i < |sc.samples| ==> SampleRead(sc.rules, sc.samples[i]) && PrintableSample(sc.samples[i])
  {
  }

  lemma RulesAndTruthRead(sc: Scene) returns (end: State)
    requires Printable(sc)
    ensures var a := PrintHead(sc) + PrintRules(sc.rules, |sc.rules|) + PrintTruth(sc.rules, sc.truth, |sc.truth|);
            Lines(START, a) == Parsed(end)
    ensures end.scene == Headed(sc, 5).scene.(rules := sc.rules, truth := sc.truth) && end.sawVersion
  {
    HeadReads(sc);
    Parts(sc);
    hide Printable, WellFormed, PrintHead, PrintRules, PrintTruth, Lines;
    hide UniqueIds, RuleRead, PrintableRule, TruthOrdered, TruthRead, PrintableTruth, WholeMs;
    var s0, r, t := Headed(sc, 5), |sc.rules|, |sc.truth|;
    assert sc.rules[..r] == sc.rules && sc.truth[..t] == sc.truth;
    RulesReadBack(s0, sc.rules, r);
    var s1 := s0.(scene := s0.scene.(rules := sc.rules));
    LinesConcat(START, PrintHead(sc), PrintRules(sc.rules, r));
    end := TruthReadBack(s1, sc.rules, sc.truth, t);
    LinesConcat(START, PrintHead(sc) + PrintRules(sc.rules, r), PrintTruth(sc.rules, sc.truth, t));
  }

  lemma PrintReadsAll(sc: Scene) returns (end: State)
    requires Printable(sc)
    ensures Lines(START, Print(sc)) == Parsed(end) && end.scene == sc && end.sawVersion
  {
    Parts(sc);
    hide Printable, WellFormed, PrintHead, PrintRules, PrintTruth, PrintRestarts, PrintSamples, Lines;
    hide UniqueIds, RuleRead, PrintableRule, TruthOrdered, TruthRead;
    hide PrintableTruth, RestartsOrdered, WholeMs, SampleRead, PrintableSample;
    var b, p := |sc.restarts|, |sc.samples|;
    assert sc.restarts[..b] == sc.restarts && sc.samples[..p] == sc.samples;
    var before := PrintHead(sc) + PrintRules(sc.rules, |sc.rules|) + PrintTruth(sc.rules, sc.truth, |sc.truth|);
    var s2 := RulesAndTruthRead(sc);
    RestartsReadBack(s2, sc.restarts, b);
    var s3 := s2.(scene := s2.scene.(restarts := sc.restarts));
    LinesConcat(START, before, PrintRestarts(sc.restarts, b));
    SamplesReadBack(s3, sc.rules, sc.samples, p);
    end := s3.(scene := s3.scene.(samples := sc.samples));
    LinesConcat(START, before + PrintRestarts(sc.restarts, b), PrintSamples(sc.rules, sc.samples, p));
  }

  /** Parsing the printout of a scene returns the scene. */
  lemma ManifestRoundTrip(sc: Scene)
    requires Printable(sc)
    ensures ParseScene(Print(sc)).Parsed? && ParseScene(Print(sc)).st.scene == sc
  {
    hide Lines, Print, Finish, Printable, WellFormed;
    var end := PrintReadsAll(sc);
    FinishKeeps(end);
  }

  /** A well-formed scene passes the checks after the last line unchanged. */
  lemma FinishKeeps(st: State)
    requires Printable(st.scene) && st.sawVersion
    ensures Finish(st) == Parsed(st)
  {
    hide Consistent, PrintableRule, PrintableTruth;
  }
}

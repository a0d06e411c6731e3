/**
 What a manifest line may say, and what is refused, in the numbers and words of the format:
 the parts of `Manifest` that the printout of module `ManifestPrinting` has no line for.
 */
module ManifestRules {
  import opened Options
  import opened Machine
  import opened Scenes
  import opened Json
  import opened Timestamp
  import opened Manifest
  import opened ManifestPrinting

  // ---------------------------------------------------------------- numbers

  /** Any decimal integer is read; one that 64 bits cannot hold becomes the nearest that they can. */
  lemma IntegersRead(n: int)
    ensures ParseI64(Some(Signed(n))) ==
            Some(if n < -9223372036854775808 then -9223372036854775808
                 else if n > 9223372036854775807 then 9223372036854775807
                 else n)
  {
    SignedReads(n, "");
    assert Signed(n) + "" == Signed(n);
    assert Signed(n) != "" && Signed(n)[0] != '+';
    hide Signed, ReadSigned;
  }

  /** A plus sign is allowed, but not before another sign. */
  lemma PlusReads(n: nat)
    ensures ParseI64(Some("+" + Decimal(n))) == ParseI64(Some(Decimal(n)))
    ensures ParseI64(Some("+" + ("-" + Decimal(n)))).None?
  {
    var plus, both := "+" + Decimal(n), "+" + ("-" + Decimal(n));
    assert plus[1..] == Decimal(n) && both[1..] == "-" + Decimal(n);
    assert IsDigit(Decimal(n)[0]);
    hide ReadSigned, Decimal;
  }

  /** A number must be there, and nothing may follow it. */
  lemma IntegersRefused(n: int, rest: string)
    requires rest != "" && !IsDigit(rest[0])
    ensures ParseI64(None).None? && ParseI64(Some("")).None?
    ensures ParseI64(Some(Signed(n) + rest)).None?
  {
    SignedReads(n, rest);
    assert Signed(n) != "" && Signed(n)[0] != '+' && (Signed(n) + rest)[0] == Signed(n)[0];
    hide Signed, ReadNumber;
  }

  lemma CountsRead(n: int)
    ensures ParseU32(Some(Signed(n))) == if 0 <= n <= 4294967295 then Some(n) else None
  {
    IntegersRead(n);
    hide ParseI64, Signed;
  }

  lemma ValuesRead(tok: Option<string>)
    ensures ParseValue(tok) ==
            match tok
            case None => None
            case Some(s) =>
              if s == "yes" then Some(Yes)
              else if s == "no" then Some(No)
              else if s == "unknown" then Some(Unknown)
              else None
  {
  }

  // ---------------------------------------------------------------- before anything else

  /** Empty lines and comments say nothing, wherever they are. */
  lemma CommentsAreSkipped(st: State, line: seq<string>, comment: string)
    ensures Line(st, []) == Parsed(st) && Line(st, [("#" + comment)] + line) == Parsed(st)
  {
    var l := [("#" + comment)] + line;
    assert l[0][0] == '#';
  }

  /** The version is 1, and nothing but comments comes before it. */
  lemma VersionFirst(st: State, n: int, line: seq<string>)
    requires line != [] && line[0] != "version" && (line[0] == "" || line[0][0] != '#')
    ensures Line(st, ["version", Signed(n)]) == if n == 1 then Parsed(st.(sawVersion := true)) else Refused(InvalidArg)
    ensures !st.sawVersion ==> Line(st, line) == Refused(InvalidArg)
  {
    IntegersRead(n);
    assert ["version", Signed(n)][1..] == [Signed(n)];
    hide ParseI64, Signed, RuleLine, TruthLine, SampleLine, RestartLine, WindowLine, TickLine, SplitLine;
  }

  /** A word that starts no line is refused. */
  lemma UnknownKeyword(st: State, line: seq<string>)
    requires line != [] && (line[0] == "" || line[0][0] != '#')
    requires line[0] !in {"version", "scene", "camera", "split", "match_window", "tick_ms", "rule", "truth",
                          "restart", "sample"}
    ensures Line(st, line) == Refused(InvalidArg)
  {
    hide ParseI64, RuleLine, TruthLine, SampleLine, RestartLine, WindowLine, TickLine, SplitLine;
  }

  // ---------------------------------------------------------------- single values

  /** A name has 1 to 31 characters. */
  lemma Names(st: State, name: string)
    requires st.sawVersion
    ensures Line(st, ["scene", name]) ==
            if 1 <= |name| <= 31 then Parsed(st.(scene := st.scene.(name := name))) else Refused(InvalidArg)
    ensures Line(st, ["camera", name]) ==
            if 1 <= |name| <= 31 then Parsed(st.(scene := st.scene.(camera := name))) else Refused(InvalidArg)
  {
    assert ["scene", name][1..] == [name] && ["camera", name][1..] == [name];
    hide ParseI64, RuleLine, TruthLine, SampleLine, RestartLine, WindowLine, TickLine, SplitLine;
  }

  lemma Splits(st: State, tok: string)
    requires st.sawVersion
    ensures Line(st, ["split", tok]) ==
            if tok == "dev" then Parsed(st.(scene := st.scene.(split := Dev)))
            else if tok == "test" then Parsed(st.(scene := st.scene.(split := Test)))
            else Refused(InvalidArg)
  {
    assert ["split", tok][1..] == [tok];
    hide ParseI64, RuleLine, TruthLine, SampleLine, RestartLine, WindowLine, TickLine;
  }

  /** What the numbers of the next lemmas are: tokens that 64 bits can hold. */
  predicate Fits64(n: int) {
    -9223372036854775808 <= n <= 9223372036854775807
  }

  /** A tick is a positive number of milliseconds, and 1000 of them if no line says. */
  lemma Ticks(st: State, ms: int)
    requires Fits64(ms)
    ensures TickLine(st, [Signed(ms)]) ==
            if ms > 0 then Parsed(st.(scene := st.scene.(tick := ms * 1000000))) else Refused(InvalidArg)
    ensures match Finish(st)
            case Refused(_) => true
            case Parsed(end) =>
              end == st.(scene := st.scene.(tick := if st.scene.tick == 0 then 1000 * 1000000 else st.scene.tick))
  {
    IntegersRead(ms);
    hide ParseI64, Signed;
  }

  /** What the checks after the last line ask for, and in what order does not matter: there is
      one answer to all of them. */
  lemma FinishExactly(st: State)
    ensures var tick := if st.scene.tick == 0 then 1000 * 1000000 else st.scene.tick;
            && (Finish(st).Parsed? <==>
                  && st.sawVersion && st.scene.name != "" && st.scene.camera != ""
                  && st.scene.rules != [] && st.scene.samples != []
                  && forall i :: 0 <= i < |st.scene.rules| ==> tick <= st.scene.rules[i].maxGap)
            && (Finish(st).Refused? ==> Finish(st) == Refused(InvalidArg))
  {
  }

  /** What a keyword asks for must be there. */
  lemma Incomplete(st: State, keyword: string)
    requires keyword in {"version", "scene", "camera", "split", "match_window", "tick_ms"}
    ensures Line(st, [keyword]) == Refused(InvalidArg)
  {
    assert [keyword][1..] == [];
    hide RuleLine, TruthLine, SampleLine, RestartLine;
  }

  lemma IncompleteLines(st: State, toks: seq<string>)
    ensures |toks| < 6 ==> RuleLine(st, toks).Refused?
    ensures |toks| < 3 ==> TruthLine(st, toks).Refused?
    ensures |toks| < 2 ==> SampleLine(st, toks).Refused?
    ensures RestartLine(st, []).Refused?
  {
    NoNumber();
    hide ParseI64, FindRule, ReadLabels, AfterOf, SustainOf;
    assert |toks| < 6 ==> Tok(toks, 5) == None;
    assert |toks| < 3 ==> Tok(toks, 2) == None;
  }

  // ---------------------------------------------------------------- windows, truth and restarts

  /** A match window is given in milliseconds; without the second number nothing before an
      event counts. */
  lemma Windows(st: State, after: int, before: int)
    requires Fits64(after) && Fits64(before)
    ensures WindowLine(st, [Signed(after)]) ==
            if after >= 0 then Parsed(st.(after := after * 1000000, before := 0)) else Refused(InvalidArg)
    ensures WindowLine(st, [Signed(after), Signed(before)]) ==
            if after >= 0 && before >= 0 then Parsed(st.(after := after * 1000000, before := before * 1000000))
            else Refused(InvalidArg)
  {
    IntegersRead(after);
    IntegersRead(before);
    hide ParseI64, Signed;
  }

  lemma TruthFrom(st: State, toks: seq<string>, rule: nat, eventType: string, at: int, after: Option<int>)
    requires rule < |st.scene.rules| && |toks| >= 3 && FindRule(st.scene.rules, toks[0]) == Some(rule)
    requires toks[1] == eventType && ParseI64(Some(toks[2])) == Some(at) && AfterOf(st, Tok(toks, 3)) == after
    ensures TruthLine(st, toks) ==
            TruthMeans(st, rule, eventType, at, match after case None => -1 case Some(ns) => ns)
  {
    hide ParseI64, FindRule, AfterOf;
  }

  /** An event of the rule `id`, `at` milliseconds into the scene, with the window in force.  It
      is refused when there are 256 already, when its type does not fit, when its window is
      empty, and out of time order. */
  lemma Truths(st: State, rule: nat, eventType: string, at: int)
    requires rule < |st.scene.rules| && UniqueIds(st.scene.rules) && Fits64(at)
    ensures TruthLine(st, [st.scene.rules[rule].id, eventType, Signed(at)]) ==
            TruthMeans(st, rule, eventType, at, st.after)
  {
    hide ParseI64, Signed, FindRule, UniqueIds, TruthLine, TruthMeans;
    IntegersRead(at);
    FindsRule(st.scene.rules, rule);
    TruthFrom(st, [st.scene.rules[rule].id, eventType, Signed(at)], rule, eventType, at, Some(st.after));
  }

  /** With a number of its own, that is the window after the event. */
  lemma TruthsOwn(st: State, rule: nat, eventType: string, at: int, own: int)
    requires rule < |st.scene.rules| && UniqueIds(st.scene.rules) && Fits64(at) && Fits64(own)
    ensures TruthLine(st, [st.scene.rules[rule].id, eventType, Signed(at), Signed(own)]) ==
            TruthMeans(st, rule, eventType, at, if own < 0 then -1 else own * 1000000)
  {
    hide ParseI64, Signed, FindRule, UniqueIds, TruthLine, TruthMeans;
    IntegersRead(at);
    IntegersRead(own);
    FindsRule(st.scene.rules, rule);
    TruthFrom(st, [st.scene.rules[rule].id, eventType, Signed(at), Signed(own)], rule, eventType, at,
              if own < 0 then None else Some(own * 1000000));
  }

  function TruthMeans(st: State, rule: nat, eventType: string, at: int, after: int): Outcome {
    var truth := st.scene.truth;
    if |truth| >= 256 then Refused(Limit)
    else if !(1 <= |eventType| <= 31) || after <= 0 then Refused(InvalidArg)
    else if truth != [] && at * 1000000 < truth[|truth| - 1].at then Refused(InvalidArg)
    else Parsed(st.(scene := st.scene.(truth := truth + [Truth(rule, eventType, at * 1000000, st.before, after)])))
  }

  lemma TruthOfNobody(st: State, id: string, toks: seq<string>)
    requires |st.scene.truth| < 256 && forall i :: 0 <= i < |st.scene.rules| ==> st.scene.rules[i].id != id
    ensures TruthLine(st, [id] + toks) == TruthLine(st, []) == Refused(InvalidArg)
  {
    hide ParseI64, AfterOf;
  }

  /** Restarts: at most 8, none before the scene's time zero, in time order. */
  lemma Restarts(st: State, at: int)
    requires Fits64(at)
    ensures var rs := st.scene.restarts;
            RestartLine(st, [Signed(at)]) ==
              if |rs| >= 8 then Refused(Limit)
              else if at < 0 || (rs != [] && at * 1000000 < rs[|rs| - 1]) then Refused(InvalidArg)
              else Parsed(st.(scene := st.scene.(restarts := rs + [at * 1000000])))
  {
    IntegersRead(at);
    hide ParseI64, Signed;
  }

  // ---------------------------------------------------------------- rules

  /** The tokens of a rule line. */
  function RuleTokensOf(id: string, kind: string, target: string, count: int, window: int, gap: int): seq<string> {
    [id, kind, target, Signed(count), Signed(window), Signed(gap)]
  }

  /** What may be said of a rule: at most 8 of them, an identifier of 1 to 31 characters that is
      not taken, a kind, a target that is not `unknown`, and a count of 32 bits. */
  predicate RuleAllowed(st: State, id: string, target: string, count: int) {
    && |st.scene.rules| < 8 && 1 <= |id| <= 31
    && (forall i :: 0 <= i < |st.scene.rules| ==> st.scene.rules[i].id != id)
    && (target == "yes" || target == "no") && 0 <= count <= 4294967295
  }

  function TargetOf(target: string): Value {
    if target == "yes" then Yes else No
  }

  function WithRule(st: State, c: Config): Outcome {
    Parsed(st.(scene := st.scene.(rules := st.scene.rules + [c])))
  }

  /** A line whose first six tokens are in order: the duration decides. */
  lemma DurationDecides(st: State, toks: seq<string>, c: Config, window: int, gap: int, sustain: Option<int>)
    requires |st.scene.rules| < 8 && Tok(toks, 0) == Some(c.id) && 1 <= |c.id| <= 31
    requires FindRule(st.scene.rules, c.id).None?
    requires KindOf(Tok(toks, 1)) == Some(c.kind) && ParseValue(Tok(toks, 2)) == Some(c.target) && c.target != Unknown
    requires ParseU32(Tok(toks, 3)) == Some(c.confirmCount)
    requires ParseI64(Tok(toks, 4)) == Some(window) && ParseI64(Tok(toks, 5)) == Some(gap)
    requires SustainOf(c.kind, Tok(toks, 6)) == sustain
    requires c.confirmWindow == window * 1000000 && c.maxGap == gap * 1000000
    ensures RuleLine(st, toks) ==
            match sustain
            case None => Refused(InvalidArg)
            case Some(ns) => WithRule(st, c.(sustain := ns))
  {
    hide KindOf, SustainOf, ParseI64, ParseU32, ParseValue, FindRule;
  }

  /** The tokens before the duration say what the rule is. */
  lemma RuleSays(id: string, kind: string, target: string, count: int, window: int, gap: int, more: seq<string>)
    requires (target == "yes" || target == "no") && 0 <= count <= 4294967295 && Fits64(window) && Fits64(gap)
    ensures var toks := RuleTokensOf(id, kind, target, count, window, gap) + more;
            && Tok(toks, 0) == Some(id) && Tok(toks, 1) == Some(kind)
            && ParseValue(Tok(toks, 2)) == Some(TargetOf(target))
            && ParseU32(Tok(toks, 3)) == Some(count)
            && ParseI64(Tok(toks, 4)) == Some(window) && ParseI64(Tok(toks, 5)) == Some(gap)
            && Tok(toks, 6) == if more == [] then None else Some(more[0])
  {
    CountsRead(count);
    IntegersRead(window);
    IntegersRead(gap);
    hide ParseI64, ParseU32, Signed;
  }

  /** An appeared rule has no duration. */
  lemma RulesAppeared(st: State, id: string, target: string, count: int, window: int, gap: int, more: seq<string>)
    requires RuleAllowed(st, id, target, count) && Fits64(window) && Fits64(gap)
    ensures RuleLine(st, RuleTokensOf(id, "appeared", target, count, window, gap) + more) ==
            if more != [] then Refused(InvalidArg)
            else WithRule(st, Config(id, Kind.Appeared, TargetOf(target), count, window * 1000000, gap * 1000000, 0))
  {
    hide RuleLine, ParseI64, ParseU32, ParseValue, RuleTokensOf, FindFrom;
    RuleSays(id, "appeared", target, count, window, gap, more);
    var toks := RuleTokensOf(id, "appeared", target, count, window, gap) + more;
    var c := Config(id, Kind.Appeared, TargetOf(target), count, window * 1000000, gap * 1000000, 0);
    DurationDecides(st, toks, c, window, gap, if more == [] then Some(0) else None);
  }

  /** A sustained rule must have one; what follows it is not looked at. */
  lemma RulesSustained(st: State, id: string, target: string, count: int, window: int, gap: int, sustain: int,
                       more: seq<string>)
    requires RuleAllowed(st, id, target, count) && Fits64(window) && Fits64(gap) && Fits64(sustain)
    ensures var toks := RuleTokensOf(id, "sustained", target, count, window, gap);
            var c := Config(id, Kind.Sustained, TargetOf(target), count,
                            window * 1000000, gap * 1000000, sustain * 1000000);
            RuleLine(st, toks + []) == Refused(InvalidArg)
            && RuleLine(st, toks + ([Signed(sustain)] + more)) == WithRule(st, c)
  {
    IntegersRead(sustain);
    hide RuleLine, ParseI64, ParseU32, ParseValue, RuleTokensOf, FindFrom, Signed;
    var c := Config(id, Kind.Sustained, TargetOf(target), count, window * 1000000, gap * 1000000, sustain * 1000000);
    RuleSays(id, "sustained", target, count, window, gap, []);
    RuleSays(id, "sustained", target, count, window, gap, [Signed(sustain)] + more);
    var toks := RuleTokensOf(id, "sustained", target, count, window, gap);
    assert ParseI64(None).None? by {
      NoNumber();
    }
    DurationDecides(st, toks + [], c, window, gap, None);
    DurationDecides(st, toks + ([Signed(sustain)] + more), c, window, gap, Some(sustain * 1000000));
  }

  lemma NoNumber()
    ensures ParseI64(None).None?
  {
  }

  /** Whatever else the line says, a rule that may not be is refused, with `Limit` only for the
      ninth. */
  lemma RulesRefused(st: State, id: string, kind: string, target: string, count: int, window: int, gap: int,
                     toks: seq<string>)
    requires !RuleAllowed(st, id, target, count) || (kind != "appeared" && kind != "sustained")
    ensures RuleLine(st, RuleTokensOf(id, kind, target, count, window, gap) + toks) ==
            Refused(if |st.scene.rules| >= 8 then Limit else InvalidArg)
  {
    CountsRead(count);
    hide ParseI64, ParseU32, Signed, FindRule, SustainOf;
  }

  // ---------------------------------------------------------------- samples

  /** A sample comes after the rules, in time order, as one of at most 8192; `-` means that it
      has no frame, and a frame's path has 1 to 127 characters. */
  function SampleMeans(st: State, at: int, frame: string, labels: seq<string>): Outcome {
    var samples, rules := st.scene.samples, st.scene.rules;
    if rules == [] then Refused(InvalidArg)
    else if |samples| >= 8192 then Refused(Limit)
    else if samples != [] && at * 1000000 < samples[|samples| - 1].at then Refused(InvalidArg)
    else if !(1 <= |frame| <= 127) then Refused(Limit)
    else
      match ReadLabels(rules, labels, |labels|)
      case None => Refused(InvalidArg)
      case Some(m) =>
        var smp := Sample(at * 1000000, if frame == "-" then "" else frame, m);
        Parsed(st.(scene := st.scene.(samples := samples + [smp])))
  }

  lemma SampleFrom(st: State, toks: seq<string>, at: int, frame: string, labels: seq<string>)
    requires |toks| >= 2 && ParseI64(Some(toks[0])) == Some(at) && toks[1] == frame && toks[2..] == labels
    ensures SampleLine(st, toks) == SampleMeans(st, at, frame, labels)
  {
    hide ParseI64, ReadLabels;
  }

  lemma Samples(st: State, at: int, frame: string, labels: seq<string>)
    requires Fits64(at)
    ensures SampleLine(st, [Signed(at), frame] + labels) == SampleMeans(st, at, frame, labels)
  {
    hide ParseI64, Signed, SampleLine, SampleMeans;
    IntegersRead(at);
    SampleFrom(st, [Signed(at), frame] + labels, at, frame, labels);
  }

  /** One more label: it must name a declared rule that has none yet, and a value. */
  lemma LabelsGrow(rules: seq<Config>, toks: seq<string>, id: string, value: string)
    requires '=' !in id
    ensures ReadLabels(rules, toks + [id + "=" + value], |toks| + 1) ==
            match (ReadLabels(rules, toks, |toks|), FindRule(rules, id), ParseValue(Some(value)))
            case (Some(m), Some(r), Some(v)) => if r in m then None else Some(m[r := v])
            case _ => None
  {
    var tok := id + "=" + value;
    LabelsOfPrefix(rules, toks, [tok], |toks|);
    EqualsFound(id, value);
    assert tok[..|id|] == id && tok[|id| + 1..] == value;
    hide ParseValue, FindRule, EqualsAt;
  }

  /** A token without an equals sign is not a label. */
  lemma LabelsRefused(rules: seq<Config>, toks: seq<string>, tok: string)
    requires '=' !in tok
    ensures ReadLabels(rules, toks + [tok], |toks| + 1).None?
  {
    assert EqualsAt(tok) == |tok|;
    hide ParseValue, FindRule, EqualsAt;
  }
}

/**
 Scene manifests (src/gw_manifest.c), over lines that have already been split into
 tokens: what a line does to the scene read so far, and which manifests are accepted.
 */
module Manifest {
  import opened Options
  import opened Machine
  import opened Scenes
  import opened Json
  import opened Timestamp

  const MAX_SAMPLES: nat := 8192
  const MAX_TRUTH: nat := 256
  const MAX_RESTARTS: nat := 8
  const PATH_CAP: nat := 128
  const TYPE_CAP: nat := 32
  const NS_PER_MS: int := 1000000

  /** The parser between two lines: the scene so far, and the defaults for truth lines. */
  datatype State = State(scene: Scene, sawVersion: bool, after: int, before: int)

  const START := State(Scene("", "", Dev, [], [], [], 0, []), false, 0, 0)

  type Refusal = s: Status | s != Ok witness InvalidArg

  datatype Outcome = Parsed(st: State) | Refused(status: Refusal)

  // ---------------------------------------------------------------- tokens

  function Tok(toks: seq<string>, i: nat): Option<string> {
    if i < |toks| then Some(toks[i]) else None
  }

  function Clamp(n: int): Int64 {
    if n < -0x8000_0000_0000_0000 then -0x8000_0000_0000_0000
    else if n > 0x7FFF_FFFF_FFFF_FFFF then 0x7FFF_FFFF_FFFF_FFFF
    else n
  }

  /** A decimal integer and nothing else; out of range it saturates. */
  function ParseI64(tok: Option<string>): Option<Int64> {
    if tok.None? then None
    else
      var s := tok.value;
      var plus := s != "" && s[0] == '+';
      if plus && |s| > 1 && s[1] == '-' then None
      else
        match ReadSigned(if plus then s[1..] else s)
        case Some((n, rest)) => if rest == "" then Some(Clamp(n)) else None
        case None => None
  }

  function ParseU32(tok: Option<string>): Option<U32> {
    match ParseI64(tok)
    case Some(v) => if 0 <= v <= UINT32_MAX then Some(v) else None
    case None => None
  }

  function ParseValue(tok: Option<string>): Option<Value> {
    if tok == Some("yes") then Some(Yes)
    else if tok == Some("no") then Some(No)
    else if tok == Some("unknown") then Some(Unknown)
    else None
  }

  /** A text that is there, and fits into `cap` characters with its terminator. */
  predicate Bounded(tok: Option<string>, cap: nat) {
    tok.Some? && 0 < |tok.value| < cap
  }

  /** The first rule with this identifier. */
  function FindRule(rules: seq<Config>, id: string): (r: Option<nat>)
    ensures r.Some? ==> r.value < |rules| && rules[r.value].id == id
    ensures r.Some? ==> forall i :: 0 <= i < r.value ==> rules[i].id != id
    ensures r.None? ==> forall i :: 0 <= i < |rules| ==> rules[i].id != id
  {
    FindFrom(rules, id, 0)
  }

  function FindFrom(rules: seq<Config>, id: string, i: nat): (r: Option<nat>)
    requires i <= |rules|
    ensures r.Some? ==> i <= r.value < |rules| && rules[r.value].id == id
    ensures r.Some? ==> forall j :: i <= j < r.value ==> rules[j].id != id
    ensures r.None? ==> forall j :: i <= j < |rules| ==> rules[j].id != id
    decreases |rules| - i
  {
    if i == |rules| then None else if rules[i].id == id then Some(i) else FindFrom(rules, id, i + 1)
  }

  // ---------------------------------------------------------------- rule lines

  function KindOf(tok: Option<string>): Option<Kind> {
    if tok == Some("appeared") then Some(Appeared)
    else if tok == Some("sustained") then Some(Sustained)
    else None
  }

  /** What follows the gap: a duration for a sustained rule, nothing for an appeared one. */
  function SustainOf(kind: Kind, tok: Option<string>): Option<int> {
    if kind.Appeared? then (if tok == None then Some(0) else None)
    else
      match ParseI64(tok)
      case Some(ms) => Some(ms * NS_PER_MS)
      case None => None
  }

  function RuleLine(st: State, toks: seq<string>): Outcome {
    var sc := st.scene;
    if |sc.rules| >= MAX_RULES then Refused(Limit)
    else if !Bounded(Tok(toks, 0), ID_CAP) || FindRule(sc.rules, toks[0]).Some? then Refused(InvalidArg)
    else
      match (KindOf(Tok(toks, 1)), ParseValue(Tok(toks, 2))) {
        case (Some(kind), Some(target)) =>
          if target == Unknown then Refused(InvalidArg)
          else
            var sustain := SustainOf(kind, Tok(toks, 6));
            match (ParseU32(Tok(toks, 3)), ParseI64(Tok(toks, 4)), ParseI64(Tok(toks, 5)), sustain) {
              case (Some(count), Some(window), Some(gap), Some(sustain)) =>
                var c := Config(toks[0], kind, target, count, window * NS_PER_MS, gap * NS_PER_MS, sustain);
                Parsed(st.(scene := sc.(rules := sc.rules + [c])))
              case _ => Refused(InvalidArg)
            }
        case _ => Refused(InvalidArg)
      }
  }

  // ---------------------------------------------------------------- truth lines

  /** The window after an event: its own, or else the default. */
  function AfterOf(st: State, tok: Option<string>): Option<int> {
    if tok == None then Some(st.after)
    else
      match ParseI64(tok)
      case Some(ms) => if ms < 0 then None else Some(ms * NS_PER_MS)
      case None => None
  }

  function TruthLine(st: State, toks: seq<string>): Outcome {
    var sc := st.scene;
    if |sc.truth| >= MAX_TRUTH then Refused(Limit)
    else if Tok(toks, 0) == None || FindRule(sc.rules, toks[0]).None? then Refused(InvalidArg)
    else if !Bounded(Tok(toks, 1), TYPE_CAP) then Refused(InvalidArg)
    else
      match (ParseI64(Tok(toks, 2)), AfterOf(st, Tok(toks, 3)))
      case (Some(ms), Some(after)) =>
        var t := Truth(FindRule(sc.rules, toks[0]).value, toks[1], ms * NS_PER_MS, st.before, after);
        if t.after <= 0 then Refused(InvalidArg)
        else if sc.truth != [] && t.at < sc.truth[|sc.truth| - 1].at then Refused(InvalidArg)
        else Parsed(st.(scene := sc.(truth := sc.truth + [t])))
      case _ => Refused(InvalidArg)
  }

  // ---------------------------------------------------------------- sample lines

  /** The place of the first '=' of a token; its length if there is none. */
  function EqualsAt(s: string): (i: nat)
    ensures i <= |s| && (i < |s| ==> s[i] == '=') && forall j :: 0 <= j < i ==> s[j] != '='
  {
    if s == "" || s[0] == '=' then 0 else 1 + EqualsAt(s[1..])
  }

  /** One `<rule>=<value>` token. */
  function ReadLabel(rules: seq<Config>, tok: string): Option<(nat, Value)> {
    var i := EqualsAt(tok);
    if i == |tok| then None
    else
      match (FindRule(rules, tok[..i]), ParseValue(Some(tok[i + 1..])))
      case (Some(r), Some(v)) => Some((r, v))
      case _ => None
  }

  /** The labels of the first `n` tokens; no rule is labelled twice. */
  function ReadLabels(rules: seq<Config>, toks: seq<string>, n: nat): Option<map<nat, Value>>
    requires n <= |toks|
  {
    if n == 0 then Some(map[])
    else
      match ReadLabels(rules, toks, n - 1)
      case None => None
      case Some(m) =>
        match ReadLabel(rules, toks[n - 1])
        case None => None
        case Some((r, v)) => if r in m then None else Some(m[r := v])
  }

  predicate FrameFits(tok: string) {
    tok == "-" || Bounded(Some(tok), PATH_CAP)
  }

  function SampleLine(st: State, toks: seq<string>): Outcome {
    var sc := st.scene;
    if sc.rules == [] then Refused(InvalidArg)
    else if |sc.samples| >= MAX_SAMPLES then Refused(Limit)
    else
      match ParseI64(Tok(toks, 0))
      case None => Refused(InvalidArg)
      case Some(ms) =>
        var at := ms * NS_PER_MS;
        if sc.samples != [] && at < sc.samples[|sc.samples| - 1].at then Refused(InvalidArg)
        else if Tok(toks, 1) == None then Refused(InvalidArg)
        else if !FrameFits(toks[1]) then Refused(Limit)
        else
          match ReadLabels(sc.rules, toks[2..], |toks| - 2)
          case None => Refused(InvalidArg)
          case Some(labels) =>
            var smp := Sample(at, if toks[1] == "-" then "" else toks[1], labels);
            Parsed(st.(scene := sc.(samples := sc.samples + [smp])))
  }

  // ---------------------------------------------------------------- other lines

  function RestartLine(st: State, toks: seq<string>): Outcome {
    var sc := st.scene;
    if |sc.restarts| >= MAX_RESTARTS then Refused(Limit)
    else
      match ParseI64(Tok(toks, 0))
      case None => Refused(InvalidArg)
      case Some(ms) =>
        if ms < 0 then Refused(InvalidArg)
        else if sc.restarts != [] && ms * NS_PER_MS < sc.restarts[|sc.restarts| - 1] then Refused(InvalidArg)
        else Parsed(st.(scene := sc.(restarts := sc.restarts + [ms * NS_PER_MS])))
  }

  function BeforeOf(tok: Option<string>): Option<int> {
    if tok == None then Some(0)
    else
      match ParseI64(tok)
      case Some(ms) => if ms < 0 then None else Some(ms * NS_PER_MS)
      case None => None
  }

  function WindowLine(st: State, toks: seq<string>): Outcome {
    match (ParseI64(Tok(toks, 0)), BeforeOf(Tok(toks, 1)))
    case (Some(ms), Some(before)) =>
      if ms < 0 then Refused(InvalidArg) else Parsed(st.(after := ms * NS_PER_MS, before := before))
    case _ => Refused(InvalidArg)
  }

  function TickLine(st: State, toks: seq<string>): Outcome {
    match ParseI64(Tok(toks, 0))
    case Some(ms) => if ms <= 0 then Refused(InvalidArg) else Parsed(st.(scene := st.scene.(tick := ms * NS_PER_MS)))
    case None => Refused(InvalidArg)
  }

  function SplitLine(st: State, toks: seq<string>): Outcome {
    if Tok(toks, 0) == Some("dev") then Parsed(st.(scene := st.scene.(split := Dev)))
    else if Tok(toks, 0) == Some("test") then Parsed(st.(scene := st.scene.(split := Test)))
    else Refused(InvalidArg)
  }

  /** One line, its keyword first. */
  function Line(st: State, line: seq<string>): Outcome {
    if line == [] || (line[0] != "" && line[0][0] == '#') then Parsed(st)
    else
      var kw, toks := line[0], line[1..];
      if kw == "version" then
        if ParseI64(Tok(toks, 0)) == Some(1) then Parsed(st.(sawVersion := true)) else Refused(InvalidArg)
      else if !st.sawVersion then Refused(InvalidArg)
      else if kw == "scene" then
        if !Bounded(Tok(toks, 0), TYPE_CAP) then Refused(InvalidArg)
        else Parsed(st.(scene := st.scene.(name := toks[0])))
      else if kw == "camera" then
        if !Bounded(Tok(toks, 0), ID_CAP) then Refused(InvalidArg)
        else Parsed(st.(scene := st.scene.(camera := toks[0])))
      else if kw == "split" then SplitLine(st, toks)
      else if kw == "match_window" then WindowLine(st, toks)
      else if kw == "tick_ms" then TickLine(st, toks)
      else if kw == "rule" then RuleLine(st, toks)
      else if kw == "truth" then TruthLine(st, toks)
      else if kw == "restart" then RestartLine(st, toks)
      else if kw == "sample" then SampleLine(st, toks)
      else Refused(InvalidArg)
  }

  function Lines(st: State, lines: seq<seq<string>>): Outcome
    decreases |lines|
  {
    if lines == [] then Parsed(st)
    else
      match Line(st, lines[0])
      case Refused(status) => Refused(status)
      case Parsed(st') => Lines(st', lines[1..])
  }

  predicate TickCoarse(sc: Scene) {
    exists i :: 0 <= i < |sc.rules| && sc.tick > sc.rules[i].maxGap
  }

  /** The checks after the last line. */
  function Finish(st: State): Outcome {
    var sc := if st.scene.tick == 0 then st.scene.(tick := 1000 * NS_PER_MS) else st.scene;
    if !st.sawVersion || sc.name == "" || sc.camera == "" || sc.rules == [] || sc.samples == [] then Refused(InvalidArg)
    else if TickCoarse(sc) then Refused(InvalidArg)
    else Parsed(st.(scene := sc))
  }

  /** `gw_scene_parse`. */
  function ParseScene(lines: seq<seq<string>>): Outcome {
    match Lines(START, lines)
    case Refused(status) => Refused(status)
    case Parsed(st) => Finish(st)
  }

  // ---------------------------------------------------------------- accepted manifests

  predicate UniqueIds(rules: seq<Config>) {
    forall i, j :: 0 <= i < j < |rules| ==> rules[i].id != rules[j].id
  }

  predicate TruthOrdered(truth: seq<Truth>) {
    forall i, j :: 0 <= i < j < |truth| ==> truth[i].at <= truth[j].at
  }

  predicate RestartsOrdered(restarts: seq<int>) {
    forall i, j :: 0 <= i < j < |restarts| ==> restarts[i] <= restarts[j]
  }

  /** What a rule line guarantees about its rule; see `ParsedIsReplayable` for the rest. */
  predicate RuleRead(c: Config) {
    IdFits(c.id) && c.target != Unknown && (c.kind.Appeared? ==> c.sustain == 0)
  }

  predicate TruthRead(rules: seq<Config>, t: Truth) {
    t.rule < |rules| && t.after > 0 && t.before >= 0 && 0 < |t.eventType| < TYPE_CAP
  }

  predicate SampleRead(rules: seq<Config>, smp: Sample) {
    |smp.frame| < PATH_CAP && forall r :: r in smp.labels ==> r < |rules|
  }

  /** What holds of the scene after every line. */
  predicate Consistent(st: State) {
    var sc := st.scene;
    && |sc.rules| <= MAX_RULES && |sc.samples| <= MAX_SAMPLES && |sc.truth| <= MAX_TRUTH
    && |sc.restarts| <= MAX_RESTARTS
    && |sc.name| < TYPE_CAP && |sc.camera| < ID_CAP
    && UniqueIds(sc.rules) && (forall i :: 0 <= i < |sc.rules| ==> RuleRead(sc.rules[i]))
    && TruthOrdered(sc.truth) && (forall i :: 0 <= i < |sc.truth| ==> TruthRead(sc.rules, sc.truth[i]))
    && Ordered(sc) && (forall i :: 0 <= i < |sc.samples| ==> SampleRead(sc.rules, sc.samples[i]))
    && RestartsOrdered(sc.restarts) && (forall i :: 0 <= i < |sc.restarts| ==> sc.restarts[i] >= 0)
    && sc.tick >= 0 && st.before >= 0
  }

  lemma {:induction false} LabelsRead(rules: seq<Config>, toks: seq<string>, n: nat)
    requires n <= |toks| && ReadLabels(rules, toks, n).Some?
    ensures forall r :: r in ReadLabels(rules, toks, n).value ==> r < |rules|
  {
    if n > 0 {
      LabelsRead(rules, toks, n - 1);
    }
  }

  lemma RuleLineKeeps(st: State, toks: seq<string>)
    requires Consistent(st) && RuleLine(st, toks).Parsed?
    ensures Consistent(RuleLine(st, toks).st)
  {
    hide FindFrom, ParseI64, ParseU32, ParseValue;
  }

  lemma TruthLineKeeps(st: State, toks: seq<string>)
    requires Consistent(st) && TruthLine(st, toks).Parsed?
    ensures Consistent(TruthLine(st, toks).st)
  {
    hide FindFrom, ParseI64;
  }

  lemma SampleLineKeeps(st: State, toks: seq<string>)
    requires Consistent(st) && SampleLine(st, toks).Parsed?
    ensures Consistent(SampleLine(st, toks).st)
  {
    hide FindFrom, ParseI64, ReadLabels;
    LabelsRead(st.scene.rules, toks[2..], |toks| - 2);
  }

  lemma RestartLineKeeps(st: State, toks: seq<string>)
    requires Consistent(st) && RestartLine(st, toks).Parsed?
    ensures Consistent(RestartLine(st, toks).st)
  {
    hide ParseI64;
  }

  lemma LineKeeps(st: State, line: seq<string>)
    requires Consistent(st) && Line(st, line).Parsed?
    ensures Consistent(Line(st, line).st)
  {
    hide ParseI64, RuleLine, TruthLine, SampleLine, RestartLine;
    if line != [] {
      var kw, toks := line[0], line[1..];
      if kw == "rule" && RuleLine(st, toks).Parsed? {
        RuleLineKeeps(st, toks);
      } else if kw == "truth" && TruthLine(st, toks).Parsed? {
        TruthLineKeeps(st, toks);
      } else if kw == "sample" && SampleLine(st, toks).Parsed? {
        SampleLineKeeps(st, toks);
      } else if kw == "restart" && RestartLine(st, toks).Parsed? {
        RestartLineKeeps(st, toks);
      }
    }
  }

  lemma {:induction false} LinesKeep(st: State, lines: seq<seq<string>>)
    requires Consistent(st) && Lines(st, lines).Parsed?
    ensures Consistent(Lines(st, lines).st)
    decreases |lines|
  {
    hide Consistent, Line;
    if lines != [] {
      LineKeeps(st, lines[0]);
      LinesKeep(Line(st, lines[0]).st, lines[1..]);
    }
  }

  /** What every accepted manifest guarantees. */
  predicate WellFormed(sc: Scene) {
    && Consistent(State(sc, true, 0, 0))
    && IdFits(sc.camera) && sc.name != ""
    && sc.rules != [] && sc.samples != []
    && sc.tick > 0 && forall i :: 0 <= i < |sc.rules| ==> sc.tick <= sc.rules[i].maxGap
  }

  lemma ParsedIsWellFormed(lines: seq<seq<string>>)
    requires ParseScene(lines).Parsed?
    ensures WellFormed(ParseScene(lines).st.scene)
  {
    hide Lines;
    assert Consistent(START);
    LinesKeep(START, lines);
  }

  /** A parsed scene can be replayed, and the watch accepts its rules exactly when their
      counts, windows and durations make sense, which the parser does not look at. */
  lemma ParsedIsReplayable(lines: seq<seq<string>>)
    requires ParseScene(lines).Parsed?
    ensures var sc := ParseScene(lines).st.scene;
            && Replayable(sc) && Ordered(sc)
            && (Accepted(sc) <==> forall i :: 0 <= i < |sc.rules| ==>
                  && sc.rules[i].confirmCount > 0 && sc.rules[i].confirmWindow >= 0
                  && (sc.rules[i].kind.Sustained? ==> sc.rules[i].sustain > 0))
  {
    ParsedIsWellFormed(lines);
    var sc := ParseScene(lines).st.scene;
    hide ParseScene;
    AcceptedExactly(sc, |sc.rules|);
    assert forall i :: 0 <= i < |sc.rules| ==> RuleRead(sc.rules[i]) && sc.rules[i].maxGap > 0;
  }
}

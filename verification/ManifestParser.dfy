/**
 The manifest parser as src/gw_manifest.c runs it: a parser object whose scene and
 defaults the lines change in place, with its loops over rules, tokens and lines.
 Each method is proved to do what module `Manifest` says the line does, and to leave
 the parser as it was when it refuses.
 */
module ManifestParser {
  import opened Options
  import opened Machine
  import opened Scenes
  import opened Manifest

  class Parser {
    var scene: Scene
    var sawVersion: bool
    var after: int
    var before: int

    constructor ()
      ensures Current() == START
    {
      scene, sawVersion, after, before := START.scene, false, 0, 0;
    }

    ghost function Current(): State
      reads this
    {
      State(scene, sawVersion, after, before)
    }

    /** The parser has done what `outcome` says, starting from `was`. */
    ghost predicate Did(outcome: Outcome, was: State, status: Status)
      reads this
    {
      match outcome
      case Parsed(st) => status == Ok && Current() == st
      case Refused(why) => status == why && Current() == was
    }

    /** `find_rule` */
    method Find(id: string) returns (r: Option<nat>)
      ensures r == FindRule(scene.rules, id)
    {
      var i := 0;
      while i < |scene.rules|
        invariant 0 <= i <= |scene.rules|
        invariant FindFrom(scene.rules, id, 0) == FindFrom(scene.rules, id, i)
      {
        if scene.rules[i].id == id {
          return Some(i);
        }
        i := i + 1;
      }
      return None;
    }

    /** `parse_rule` */
    method ParseRule(toks: seq<string>) returns (status: Status)
      modifies this
      ensures Did(RuleLine(old(Current()), toks), old(Current()), status)
    {
      hide ParseI64, FindRule;
      if |scene.rules| >= MAX_RULES {
        return Limit;
      }
      if !Bounded(Tok(toks, 0), ID_CAP) {
        return InvalidArg;
      }
      var dup := Find(toks[0]);
      if dup.Some? {
        return InvalidArg;
      }
      var kind := KindOf(Tok(toks, 1));
      if kind.None? {
        return InvalidArg;
      }
      var target := ParseValue(Tok(toks, 2));
      if target.None? || target.value == Unknown {
        return InvalidArg;
      }
      var count, window, gap := ParseU32(Tok(toks, 3)), ParseI64(Tok(toks, 4)), ParseI64(Tok(toks, 5));
      if count.None? || window.None? || gap.None? {
        return InvalidArg;
      }
      var sustain := 0;
      if kind.value.Sustained? {
        var ms := ParseI64(Tok(toks, 6));
        if ms.None? {
          return InvalidArg;
        }
        sustain := ms.value * NS_PER_MS;
      } else if Tok(toks, 6) != None {
        return InvalidArg;
      }
      var c := Config(toks[0], kind.value, target.value, count.value,
                      window.value * NS_PER_MS, gap.value * NS_PER_MS, sustain);
      scene := scene.(rules := scene.rules + [c]);
      return Ok;
    }

    /** `parse_truth` */
    method ParseTruth(toks: seq<string>) returns (status: Status)
      modifies this
      ensures Did(TruthLine(old(Current()), toks), old(Current()), status)
    {
      hide ParseI64, FindRule;
      if |scene.truth| >= MAX_TRUTH {
        return Limit;
      }
      if Tok(toks, 0) == None {
        return InvalidArg;
      }
      var rule := Find(toks[0]);
      if rule.None? || !Bounded(Tok(toks, 1), TYPE_CAP) {
        return InvalidArg;
      }
      var at := ParseI64(Tok(toks, 2));
      if at.None? {
        return InvalidArg;
      }
      var t := Truth(rule.value, toks[1], at.value * NS_PER_MS, before, after);
      if Tok(toks, 3) != None {
        var ms := ParseI64(Tok(toks, 3));
        if ms.None? || ms.value < 0 {
          return InvalidArg;
        }
        t := t.(after := ms.value * NS_PER_MS);
      }
      if t.after <= 0 {
        return InvalidArg;
      }
      if |scene.truth| > 0 && t.at < scene.truth[|scene.truth| - 1].at {
        return InvalidArg;
      }
      scene := scene.(truth := scene.truth + [t]);
      return Ok;
    }

    /** The loop of `parse_sample` over the labels. */
    method ParseLabels(toks: seq<string>) returns (labels: Option<map<nat, Value>>)
      ensures labels == ReadLabels(scene.rules, toks, |toks|)
    {
      var m: map<nat, Value> := map[];
      var i := 0;
      while i < |toks|
        invariant 0 <= i <= |toks| && ReadLabels(scene.rules, toks, i) == Some(m)
      {
        var eq := EqualsAt(toks[i]);
        var found: Option<(nat, Value)> := None;
        if eq < |toks[i]| {
          var rule := Find(toks[i][..eq]);
          var value := ParseValue(Some(toks[i][eq + 1..]));
          if rule.Some? && value.Some? {
            found := Some((rule.value, value.value));
          }
        }
        assert found == ReadLabel(scene.rules, toks[i]);
        if found.None? || found.value.0 in m {
          LabelsRefused(scene.rules, toks, i + 1, |toks|);
          return None;
        }
        m := m[found.value.0 := found.value.1];
        i := i + 1;
      }
      return Some(m);
    }

    /** `parse_sample` */
    method ParseSample(toks: seq<string>) returns (status: Status)
      modifies this
      ensures Did(SampleLine(old(Current()), toks), old(Current()), status)
    {
      hide ParseI64, ReadLabels;
      if |scene.rules| == 0 {
        return InvalidArg;
      }
      if |scene.samples| >= MAX_SAMPLES {
        return Limit;
      }
      var ms := ParseI64(Tok(toks, 0));
      if ms.None? {
        return InvalidArg;
      }
      var at := ms.value * NS_PER_MS;
      if |scene.samples| > 0 && at < scene.samples[|scene.samples| - 1].at {
        return InvalidArg;
      }
      if Tok(toks, 1) == None {
        return InvalidArg;
      }
      if toks[1] != "-" && !Bounded(Tok(toks, 1), PATH_CAP) {
        return Limit;
      }
      var labels := ParseLabels(toks[2..]);
      if labels.None? {
        return InvalidArg;
      }
      var smp := Sample(at, if toks[1] == "-" then "" else toks[1], labels.value);
      scene := scene.(samples := scene.samples + [smp]);
      return Ok;
    }

    /** A `restart` line. */
    method ParseRestart(toks: seq<string>) returns (status: Status)
      modifies this
      ensures Did(RestartLine(old(Current()), toks), old(Current()), status)
    {
      hide ParseI64;
      if |scene.restarts| >= MAX_RESTARTS {
        return Limit;
      }
      var ms := ParseI64(Tok(toks, 0));
      if ms.None? || ms.value < 0 {
        return InvalidArg;
      }
      var at := ms.value * NS_PER_MS;
      if |scene.restarts| > 0 && at < scene.restarts[|scene.restarts| - 1] {
        return InvalidArg;
      }
      scene := scene.(restarts := scene.restarts + [at]);
      return Ok;
    }

    /** A `match_window` line. */
    method ParseWindow(toks: seq<string>) returns (status: Status)
      modifies this
      ensures Did(WindowLine(old(Current()), toks), old(Current()), status)
    {
      hide ParseI64;
      var ms := ParseI64(Tok(toks, 0));
      if ms.None? || ms.value < 0 {
        return InvalidArg;
      }
      var back := 0;
      if Tok(toks, 1) != None {
        var b := ParseI64(Tok(toks, 1));
        if b.None? || b.value < 0 {
          return InvalidArg;
        }
        back := b.value;
      }
      after := ms.value * NS_PER_MS;
      before := back * NS_PER_MS;
      return Ok;
    }

    /** One line of the manifest: the body of the loop of `gw_scene_parse`. */
    method ParseLine(line: seq<string>) returns (status: Status)
      modifies this
      ensures Did(Line(old(Current()), line), old(Current()), status)
    {
      hide ParseI64, RuleLine, TruthLine, SampleLine, RestartLine, WindowLine;
      if line == [] || (line[0] != "" && line[0][0] == '#') {
        return Ok;
      }
      var kw, toks := line[0], line[1..];
      status := InvalidArg;
      if kw == "version" {
        if ParseI64(Tok(toks, 0)) == Some(1) {
          sawVersion := true;
          status := Ok;
        }
      } else if !sawVersion {
      } else if kw == "scene" {
        if Bounded(Tok(toks, 0), TYPE_CAP) {
          scene := scene.(name := toks[0]);
          status := Ok;
        }
      } else if kw == "camera" {
        if Bounded(Tok(toks, 0), ID_CAP) {
          scene := scene.(camera := toks[0]);
          status := Ok;
        }
      } else if kw == "split" {
        if Tok(toks, 0) == Some("dev") || Tok(toks, 0) == Some("test") {
          scene := scene.(split := if toks[0] == "dev" then Dev else Test);
          status := Ok;
        }
      } else if kw == "match_window" {
        status := ParseWindow(toks);
      } else if kw == "tick_ms" {
        var ms := ParseI64(Tok(toks, 0));
        if ms.Some? && ms.value > 0 {
          scene := scene.(tick := ms.value * NS_PER_MS);
          status := Ok;
        }
      } else if kw == "rule" {
        status := ParseRule(toks);
      } else if kw == "truth" {
        status := ParseTruth(toks);
      } else if kw == "restart" {
        status := ParseRestart(toks);
      } else if kw == "sample" {
        status := ParseSample(toks);
      }
    }

    /** The checks of `gw_scene_parse` after the last line. */
    method Check() returns (status: Status)
      modifies this
      ensures match Finish(old(Current()))
              case Parsed(st) => status == Ok && Current() == st
              case Refused(why) => status == why
    {
      if !sawVersion || scene.name == "" || scene.camera == "" || |scene.rules| == 0 || |scene.samples| == 0 {
        return InvalidArg;
      }
      if scene.tick == 0 {
        scene := scene.(tick := 1000 * NS_PER_MS);
      }
      var i := 0;
      while i < |scene.rules|
        invariant 0 <= i <= |scene.rules|
        invariant forall j :: 0 <= j < i ==> scene.tick <= scene.rules[j].maxGap
      {
        if scene.tick > scene.rules[i].maxGap {
          assert TickCoarse(scene);
          return InvalidArg;
        }
        i := i + 1;
      }
      assert !TickCoarse(scene);
      return Ok;
    }
  }

  lemma {:induction false} LabelsRefused(rules: seq<Config>, toks: seq<string>, m: nat, n: nat)
    requires m <= n <= |toks| && ReadLabels(rules, toks, m).None?
    ensures ReadLabels(rules, toks, n).None?
  {
    if m < n {
      LabelsRefused(rules, toks, m, n - 1);
    }
  }

  /** `gw_scene_parse`, over lines already split into tokens. */
  method Parse(lines: seq<seq<string>>) returns (status: Status, scene: Scene)
    ensures match ParseScene(lines)
            case Parsed(st) => status == Ok && scene == st.scene
            case Refused(why) => status == why
  {
    hide Line, Finish;
    var p := new Parser();
    var i := 0;
    assert lines[0..] == lines;
    while i < |lines|
      invariant 0 <= i <= |lines|
      invariant Lines(START, lines) == Lines(p.Current(), lines[i..])
    {
      assert lines[i..][0] == lines[i] && lines[i..][1..] == lines[i + 1..];
      status := p.ParseLine(lines[i]);
      if status != Ok {
        return status, p.scene;
      }
      i := i + 1;
    }
    status := p.Check();
    scene := p.scene;
  }
}

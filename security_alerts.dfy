/** Security tiering of an incident (`classify_and_alert`): the description
    is scanned for high- and medium-severity keywords, a zero-shot
    classifier proposes a label and a score, and the incident record gets a
    security label, score and level, with a fallback table when the
    classifier fails. The classifier's answer is an input of the model. */
module SecurityAlerts {
  import opened Text

  /** A JSON value of an incident record: text or a number. */
  datatype Value = Str(s: string) | Num(n: real)

  /** What the zero-shot classifier produced: its top label and score, or an
      exception. */
  datatype ClassifierOutcome = Failed | Answered(top: string, score: real)

  datatype Level = Bajo | Medio | Alto

  /** The level as it is stored in `security_level`. */
  function LevelName(l: Level): string {
    match l
    case Bajo => "bajo"
    case Medio => "medio"
    case Alto => "alto"
  }

  function Rank(l: Level): nat {
    match l
    case Bajo => 0
    case Medio => 1
    case Alto => 2
  }

  /** The three values written into the record. */
  datatype Assessment = Assessment(tag: string, score: real, level: Level)

  /** The fields read for the text, in order of preference. */
  const TextFields: seq<string> :=
    ["Descripción adicional (ES)", "Descripción adicional (EN)", "Texto Extraído"]

  /** `inc.get(name, "")` for a text field: the text, or `""` when absent. */
  function FieldText(fields: map<string, Value>, name: string): string {
    if name in fields && fields[name].Str? then fields[name].s else ""
  }

  /** The text fields of `fields` hold text wherever they are present: a
      number there would make `text.lower()` raise. */
  predicate TextFieldsAreText(fields: map<string, Value>) {
    forall name :: name in TextFields && name in fields ==> fields[name].Str?
  }

  /** `a or b or c`: the first non-empty text among the fields `names`, or
      `""`. */
  function FirstNonEmpty(fields: map<string, Value>, names: seq<string>): (text: string)
    ensures text == "" <==> forall i :: 0 <= i < |names| ==> FieldText(fields, names[i]) == ""
    ensures text != "" ==>
      exists i :: (0 <= i < |names| && text == FieldText(fields, names[i])
                   && forall j :: 0 <= j < i ==> FieldText(fields, names[j]) == "")
  {
    if names == [] then ""
    else if FieldText(fields, names[0]) != "" then
      assert FieldText(fields, names[0]) == FieldText(fields, names[0]);
      FieldText(fields, names[0])
    else
      var rest := FirstNonEmpty(fields, names[1..]);
      assert forall i :: 1 <= i < |names| ==> names[i] == names[1..][i - 1];
      if rest != "" then
        var i :| 0 <= i < |names[1..]| && rest == FieldText(fields, names[1..][i])
          && forall j :: 0 <= j < i ==> FieldText(fields, names[1..][j]) == "";
        assert forall j :: 0 <= j < i + 1 ==> FieldText(fields, names[j]) == "";
        rest
      else
        rest
  }

  /** The text `classify_and_alert` analyses. */
  function SelectedText(fields: map<string, Value>): string {
    FirstNonEmpty(fields, TextFields)
  }

  const HighKeywords: seq<string> := [
    "vandalismo", "vandalizado", "vandalizada", "destrozado", "destrozada", "roto", "rota",
    "destruido", "destruida", "quemado", "quemada", "incendiado", "incendiada",
    "robo", "robado", "robada", "hurtado", "hurtada", "sustraído", "sustraída",
    "intencional", "intencionado", "intencionada", "malicioso", "maliciosa",
    "vandalism", "broken", "damaged", "destroyed", "stolen", "theft", "intentional",
    "malicious", "sabotage", "sabotaged", "burned", "burnt"
  ]

  const MediumKeywords: seq<string> := [
    "daño", "dañado", "dañada", "mal estado", "desperfecto", "desperfectos",
    "golpeado", "golpeada", "rayado", "rayada", "abollado", "abollada",
    "problema", "fallo", "avería", "defecto", "defectos", "mal funcionamiento",
    "damage", "poor condition", "defect", "defects", "malfunction",
    "scratched", "dented", "hit", "impact"
  ]

  /** `high_count`: how many high-severity keywords occur, as substrings, in
      the lower-cased text. */
  function HighCount(text: string): (n: nat)
    ensures n <= |HighKeywords|
  {
    KeywordCount(HighKeywords, LowerStr(text))
  }

  /** `medium_count`, likewise for the medium-severity keywords. */
  function MediumCount(text: string): (n: nat)
    ensures n <= |MediumKeywords|
  {
    KeywordCount(MediumKeywords, LowerStr(text))
  }

  /** The table used when the classifier fails. */
  function Fallback(high: nat, medium: nat): (a: Assessment)
    ensures a.level == Alto <==> high >= 2
    ensures a.level == Medio <==> high < 2 && (high == 1 || medium >= 2)
    ensures a.level == Alto ==> a.tag == "vandalismo"
    ensures a.level == Medio ==> a.tag == "daño intencional"
    ensures a.level == Bajo ==> a.tag == "otro"
    ensures a.score == if a.level == Bajo then 0.0 else 0.5
  {
    var level := if high >= 2 then Alto else if high == 1 || medium >= 2 then Medio else Bajo;
    var tag := match level
      case Alto => "vandalismo"
      case Medio => "daño intencional"
      case Bajo => "otro";
    Assessment(tag, if level != Bajo then 0.5 else 0.0, level)
  }

  /** The classifier's score raised by 0.3 when a high-severity keyword
      occurs, else by 0.2 when a medium-severity one does, capped at 1. */
  function AdjustedScore(score: real, high: nat, medium: nat): (s: real)
    ensures score <= s || s == 1.0
    ensures score <= 1.0 ==> s <= 1.0
    ensures high == 0 && medium == 0 ==> s == score
  {
    if high > 0 then Min(1.0, score + 0.3)
    else if medium > 0 then Min(1.0, score + 0.2)
    else score
  }

  function Min(a: real, b: real): real {
    if a <= b then a else b
  }

  /** The level chosen from the adjusted score and the keyword counts. */
  function LevelFor(score: real, high: nat, medium: nat): (l: Level)
    ensures l == Alto <==> score >= 0.7 || high >= 2
    ensures l == Bajo <==> score < 0.5 && high == 0 && medium < 2
  {
    if score >= 0.7 || high >= 2 then Alto
    else if score >= 0.5 || medium >= 2 || high == 1 then Medio
    else Bajo
  }

  /** The label, score and level `classify_and_alert` writes for `text`. */
  function Assess(text: string, outcome: ClassifierOutcome): (a: Assessment)
    ensures text == "" ==> a == Assessment("otro", 0.0, Bajo)
    ensures text != "" && HighCount(text) >= 2 ==> a.level == Alto
    ensures text != "" && (HighCount(text) == 1 || MediumCount(text) >= 2) ==> a.level != Bajo
    ensures text != "" && outcome.Answered? ==> a.tag == outcome.top
    ensures text != "" && outcome.Answered? ==>
      Rank(Fallback(HighCount(text), MediumCount(text)).level) <= Rank(a.level)
    ensures text != "" && outcome.Answered? && 0.0 <= outcome.score <= 1.0 ==>
      outcome.score <= a.score <= 1.0
  {
    if text == "" then Assessment("otro", 0.0, Bajo)
    else
      var high, medium := HighCount(text), MediumCount(text);
      match outcome
      case Failed => Fallback(high, medium)
      case Answered(top, score) =>
        var s := AdjustedScore(score, high, medium);
        Assessment(top, s, LevelFor(s, high, medium))
  }

  /** `Assess` in terms of the two keyword counts. */
  lemma AssessFromCounts(text: string, outcome: ClassifierOutcome, high: nat, medium: nat)
    requires text != "" && high == HighCount(text) && medium == MediumCount(text)
    ensures outcome.Failed? ==> Assess(text, outcome) == Fallback(high, medium)
    ensures outcome.Answered? ==>
      var s := AdjustedScore(outcome.score, high, medium);
      Assess(text, outcome) == Assessment(outcome.top, s, LevelFor(s, high, medium))
  {
  }

  /** Keywords are matched as substrings, not as words: `roto` occurs in
      `protocolo`. */
  lemma ExampleRotoInProtocolo(text: string)
    requires text == "protocolo"
    ensures HighCount(text) >= 1
  {
    assert LowerStr(text) == text;
    assert HighKeywords[5] == "roto";
    assert OccursAt(text, "roto", 1);
  }

  /** Likewise `hit` occurs in `White` once it is lower-cased. */
  lemma ExampleHitInWhite(text: string, lowered: string)
    requires text == "White" && lowered == "white"
    ensures MediumCount(text) >= 1
  {
    assert LowerStr(text) == lowered;
    assert MediumKeywords[25] == "hit";
    assert OccursAt(lowered, "hit", 1);
  }

  /** Whether the Slack alert is posted: only for a classifier answer whose
      level is medium or high, and only with a webhook URL configured. In
      terms of the inputs: never when the classifier fails, and otherwise
      exactly when a high-severity keyword occurs, two medium-severity ones
      do, or the adjusted score reaches 0.5. */
  function AlertAttempted(text: string, outcome: ClassifierOutcome, webhook: string): (b: bool)
    ensures outcome.Failed? || text == "" || webhook == "" ==> !b
    ensures text != "" && outcome.Answered? && webhook != "" ==>
      (b <==> (HighCount(text) >= 1 || MediumCount(text) >= 2
               || AdjustedScore(outcome.score, HighCount(text), MediumCount(text)) >= 0.5))
  {
    text != "" && outcome.Answered? && Assess(text, outcome).level != Bajo && webhook != ""
  }

  /** The names of the fields `classify_and_alert` writes. */
  const SecurityFields: set<string> := {"security_label", "security_score", "security_level"}

  /** The record after `inc.update(...)` with the assessment `a`. */
  function Updated(fields: map<string, Value>, a: Assessment): map<string, Value> {
    fields["security_label" := Str(a.tag)]["security_score" := Num(a.score)]
      ["security_level" := Str(LevelName(a.level))]
  }

  /** The update writes the three security fields and leaves every other
      field as it was. */
  lemma UpdateTouchesOnlySecurityFields(fields: map<string, Value>, a: Assessment)
    ensures Updated(fields, a).Keys == fields.Keys + SecurityFields
    ensures forall k :: k in fields && k !in SecurityFields ==> Updated(fields, a)[k] == fields[k]
    ensures Updated(fields, a)["security_label"] == Str(a.tag)
    ensures Updated(fields, a)["security_score"] == Num(a.score)
    ensures Updated(fields, a)["security_level"] == Str(LevelName(a.level))
  {
  }

  /** An incident record that `classify_and_alert` updates in place. */
  class Incident {
    var fields: map<string, Value>

    constructor(fields: map<string, Value>)
      ensures this.fields == fields
    {
      this.fields := fields;
    }

    /** `classify_and_alert(inc)`: writes the security label, score and level
        into this record, returns this same record, and reports whether the
        Slack alert was posted. */
    method ClassifyAndAlert(outcome: ClassifierOutcome, webhook: string) returns (same: Incident, alerted: bool)
      requires TextFieldsAreText(fields)
      modifies this
      ensures same == this
      ensures fields == Updated(old(fields), Assess(SelectedText(old(fields)), outcome))
      ensures alerted == AlertAttempted(SelectedText(old(fields)), outcome, webhook)
      ensures "security_level" in fields
      ensures alerted <==> outcome.Answered? && webhook != ""
                           && fields["security_level"] in {Str("medio"), Str("alto")}
    {
      var text := SelectedText(fields);
      if text == "" {
        fields := Updated(fields, Assessment("otro", 0.0, Bajo));
        return this, false;
      }
      var high := HighCount(text);
      var medium := MediumCount(text);
      AssessFromCounts(text, outcome, high, medium);
      alerted := false;
      match outcome {
        case Answered(top, score) =>
          var s := score;
          if high > 0 {
            s := Min(1.0, s + 0.3);
          } else if medium > 0 {
            s := Min(1.0, s + 0.2);
          }
          var level;
          if s >= 0.7 || high >= 2 {
            level := Alto;
          } else if s >= 0.5 || medium >= 2 || high == 1 {
            level := Medio;
          } else {
            level := Bajo;
          }
          assert s == AdjustedScore(score, high, medium);
          assert level == LevelFor(s, high, medium);
          fields := Updated(fields, Assessment(top, s, level));
          if (level == Medio || level == Alto) && webhook != "" {
            alerted := true;
          }
        case Failed =>
          var level, tag;
          if high >= 2 {
            level, tag := Alto, "vandalismo";
          } else if high == 1 || medium >= 2 {
            level, tag := Medio, "daño intencional";
          } else {
            level, tag := Bajo, "otro";
          }
          assert Assessment(tag, if level != Bajo then 0.5 else 0.0, level) == Fallback(high, medium);
          fields := Updated(fields, Assessment(tag, if level != Bajo then 0.5 else 0.0, level));
      }
      same := this;
    }
  }
}

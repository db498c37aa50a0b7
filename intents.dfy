/** The intent labels and the validation and normalisation of a decoded
    intent prediction (`parse_and_validate_response`). Decoding markdown and
    JSON into entries is a parameter; the model checks each entry's label
    against the fixed label set and maps the validated entries back to
    `{"intent": label value, "reason": reason}` records. */
module Intents {
  import opened Chat

  /** The fifteen members of the `Labels` enumeration. */
  datatype Label =
    | FinancialPerformance | OperationalMetrics | MarketAnalysis | RiskAssessment
    | StrategicInitiatives | AccountingPractices | ManagementInsights | CapitalStructure
    | SegmentAnalysis | ComparativeAnalysis | Unrelated | NeedsMoreInfo
    | OpinionRequest | NefariousQuery | Other

  const AllLabels: seq<Label> := [
    FinancialPerformance, OperationalMetrics, MarketAnalysis, RiskAssessment,
    StrategicInitiatives, AccountingPractices, ManagementInsights, CapitalStructure,
    SegmentAnalysis, ComparativeAnalysis, Unrelated, NeedsMoreInfo,
    OpinionRequest, NefariousQuery, Other]

  /** The string value of a label (`label.value`). */
  function Value(l: Label): string
  {
    match l
    case FinancialPerformance => "financial_performance"
    case OperationalMetrics => "operational_metrics"
    case MarketAnalysis => "market_analysis"
    case RiskAssessment => "risk_assessment"
    case StrategicInitiatives => "strategic_initiatives"
    case AccountingPractices => "accounting_practices"
    case ManagementInsights => "management_insights"
    case CapitalStructure => "capital_structure"
    case SegmentAnalysis => "segment_analysis"
    case ComparativeAnalysis => "comparative_analysis"
    case Unrelated => "unrelated"
    case NeedsMoreInfo => "needs_more_info"
    case OpinionRequest => "opinion_request"
    case NefariousQuery => "nefarious_query"
    case Other => "other"
  }

  /** The first label among `labels` whose value is `s`, if any. */
  function FindLabel(s: string, labels: seq<Label>): (r: Option<Label>)
    ensures r.Some? ==> r.value in labels && Value(r.value) == s
    ensures r.None? ==> forall l :: l in labels ==> Value(l) != s
  {
    if labels == [] then None
    else if Value(labels[0]) == s then Some(labels[0])
    else FindLabel(s, labels[1..])
  }

  /** Validation of a string as a `Labels` member: a lookup by value, exactly
      (no trimming, no case folding, member names are not accepted). */
  function LabelOf(s: string): Option<Label>
  {
    FindLabel(s, AllLabels)
  }

  predicate IsLabelValue(s: string)
  {
    LabelOf(s).Some?
  }

  lemma EveryLabelListed(l: Label)
    ensures l in AllLabels
  {
    match l
    case FinancialPerformance => assert AllLabels[0] == l;
    case OperationalMetrics => assert AllLabels[1] == l;
    case MarketAnalysis => assert AllLabels[2] == l;
    case RiskAssessment => assert AllLabels[3] == l;
    case StrategicInitiatives => assert AllLabels[4] == l;
    case AccountingPractices => assert AllLabels[5] == l;
    case ManagementInsights => assert AllLabels[6] == l;
    case CapitalStructure => assert AllLabels[7] == l;
    case SegmentAnalysis => assert AllLabels[8] == l;
    case ComparativeAnalysis => assert AllLabels[9] == l;
    case Unrelated => assert AllLabels[10] == l;
    case NeedsMoreInfo => assert AllLabels[11] == l;
    case OpinionRequest => assert AllLabels[12] == l;
    case NefariousQuery => assert AllLabels[13] == l;
    case Other => assert AllLabels[14] == l;
  }

  /** Distinct labels have distinct values. */
  lemma ValueInjective(l1: Label, l2: Label)
    requires Value(l1) == Value(l2)
    ensures l1 == l2
  {
  }

  /** The enumeration has fifteen members, every label among them, with
      fifteen distinct values. */
  lemma LabelSet()
    ensures |AllLabels| == 15
    ensures forall l: Label :: l in AllLabels
    ensures forall i, j :: 0 <= i < j < |AllLabels| ==> Value(AllLabels[i]) != Value(AllLabels[j])
  {
    forall l: Label ensures l in AllLabels {
      EveryLabelListed(l);
    }
  }

  /** A string validates as a label exactly when it is that label's value. */
  lemma LabelOfValue(s: string, l: Label)
    ensures LabelOf(s) == Some(l) <==> Value(l) == s
  {
    EveryLabelListed(l);
    var r := LabelOf(s);
    if r.Some? && Value(l) == s {
      ValueInjective(r.value, l);
    }
  }

  /** A validated intent: a label and a reason. */
  datatype Intent = Intent(intent: Label, reason: string)

  /** The positions of the entries whose label fails `valid`; validation
      uses it with `IsLabelValue`. */
  function InvalidPositions(entries: seq<IntentEntry>, valid: string -> bool): seq<nat>
  {
    if entries == [] then []
    else
      var n := |entries| - 1;
      var init := InvalidPositions(entries[..n], valid);
      if valid(entries[n].intent) then init else init + [n]
  }

  /** The reported positions are exactly those of the entries with a bad
      label, each once, in increasing order. */
  lemma {:induction false} InvalidPositionsSpec(entries: seq<IntentEntry>, valid: string -> bool)
    ensures var ps := InvalidPositions(entries, valid);
      forall k :: 0 <= k < |ps| ==> ps[k] < |entries| && !valid(entries[ps[k]].intent)
    ensures var ps := InvalidPositions(entries, valid);
      forall i :: 0 <= i < |entries| && !valid(entries[i].intent) ==> i in ps
    ensures var ps := InvalidPositions(entries, valid);
      forall k, m :: 0 <= k < m < |ps| ==> ps[k] < ps[m]
  {
    if entries != [] {
      var n := |entries| - 1;
      var init := entries[..n];
      InvalidPositionsSpec(init, valid);
      assert forall i :: 0 <= i < n ==> init[i] == entries[i];
    }
  }

  /** No position is reported exactly when every label passes. */
  lemma {:induction false} NoInvalidPositions(entries: seq<IntentEntry>, valid: string -> bool)
    ensures InvalidPositions(entries, valid) == [] <==> forall i :: 0 <= i < |entries| ==> valid(entries[i].intent)
  {
    if entries != [] {
      var n := |entries| - 1;
      var init := entries[..n];
      NoInvalidPositions(init, valid);
      assert forall i :: 0 <= i < n ==> init[i] == entries[i];
    }
  }

  /** The label check that validating `IntentPrediction` performs on each
      entry: every label must be a label value; otherwise the failure names
      every offending position. */
  function Validate(entries: seq<IntentEntry>): Result<seq<Intent>, Failure>
  {
    var bad := InvalidPositions(entries, IsLabelValue);
    if bad != [] then Err(LabelsInvalid(bad))
    else
      InvalidPositionsSpec(entries, IsLabelValue);
      Ok(seq(|entries|, i requires 0 <= i < |entries| => Intent(LabelOf(entries[i].intent).value, entries[i].reason)))
  }

  /** Validation succeeds exactly when every label is a label value; it then
      keeps every entry, in order, with its label and reason; otherwise it
      fails naming exactly the offending positions, in increasing order. */
  lemma ValidateSpec(entries: seq<IntentEntry>)
    ensures var r := Validate(entries);
      r.Ok? <==> forall i :: 0 <= i < |entries| ==> IsLabelValue(entries[i].intent)
    ensures var r := Validate(entries);
      r.Ok? ==> |r.value| == |entries| && forall i :: 0 <= i < |entries| ==>
        Value(r.value[i].intent) == entries[i].intent && r.value[i].reason == entries[i].reason
    ensures var r := Validate(entries);
      r.Err? ==> r.error.LabelsInvalid? && r.error.positions != []
    ensures var r := Validate(entries);
      r.Err? ==> forall i :: 0 <= i < |entries| ==> (i in r.error.positions <==> !IsLabelValue(entries[i].intent))
    ensures var r := Validate(entries);
      r.Err? ==> forall k, m :: 0 <= k < m < |r.error.positions| ==> r.error.positions[k] < r.error.positions[m] < |entries|
  {
    InvalidPositionsSpec(entries, IsLabelValue);
    NoInvalidPositions(entries, IsLabelValue);
  }

  /** The list comprehension that turns each validated intent back into
      `{"intent": label value, "reason": reason}`. */
  function Normalise(intents: seq<Intent>): seq<IntentEntry>
  {
    seq(|intents|, i requires 0 <= i < |intents| => IntentEntry(Value(intents[i].intent), intents[i].reason))
  }

  /** Normalising what validation accepted gives back the decoded entries
      unchanged: same length, same order, same label strings and reasons. */
  lemma NormaliseAfterValidate(entries: seq<IntentEntry>)
    ensures Validate(entries).Ok? ==> Normalise(Validate(entries).value) == entries
  {
    if Validate(entries).Ok? {
      ValidateSpec(entries);
      var out := Normalise(Validate(entries).value);
      assert forall i :: 0 <= i < |out| ==> out[i] == entries[i];
    }
  }

  /** Looking up a label's own value finds that label. */
  lemma LabelOfOwnValue(l: Label)
    ensures LabelOf(Value(l)) == Some(l)
  {
    LabelOfValue(Value(l), l);
  }

  /** Every normalised entry carries a label value. */
  lemma NormalisedLabelsValid(intents: seq<Intent>)
    ensures forall i :: 0 <= i < |intents| ==> IsLabelValue(Normalise(intents)[i].intent)
  {
    var out := Normalise(intents);
    forall i | 0 <= i < |out| ensures IsLabelValue(out[i].intent) {
      LabelOfOwnValue(intents[i].intent);
    }
  }

  /** What validation accepts it maps back to intents with the same labels
      as those the entries were normalised from. */
  lemma ValidatedNormalised(intents: seq<Intent>)
    requires Validate(Normalise(intents)).Ok?
    ensures Validate(Normalise(intents)).value == intents
  {
    ValidateSpec(Normalise(intents));
    var r := Validate(Normalise(intents)).value;
    forall i | 0 <= i < |intents| ensures r[i] == intents[i] {
      assert Value(r[i].intent) == Value(intents[i].intent);
      ValueInjective(r[i].intent, intents[i].intent);
    }
  }

  /** Validating normalised intents accepts them and gives back the same
      intents: no label is lost or changed by the mapping. */
  lemma ValidateAfterNormalise(intents: seq<Intent>)
    ensures Validate(Normalise(intents)) == Ok(intents)
  {
    NormalisedLabelsValid(intents);
    ValidateSpec(Normalise(intents));
    ValidatedNormalised(intents);
  }

  /** The value `parse_and_validate_response` returns: a dictionary whose one
      key `intents` holds the normalised entries. */
  datatype IntentPrediction = IntentPrediction(intents: seq<IntentEntry>)

  /** `parse_and_validate_response`: decode the reply, validate its labels and
      normalise. `decode` stands for markdown extraction, JSON parsing and the
      structural part of validation. */
  function ParseAndValidate(text: string, decode: string -> Result<seq<IntentEntry>, string>): Result<IntentPrediction, Failure>
  {
    match decode(text)
    case Err(m) => Err(DecodeFailed(m))
    case Ok(entries) =>
      match Validate(entries)
      case Err(f) => Err(f)
      case Ok(intents) => Ok(IntentPrediction(Normalise(intents)))
  }

  /** A reply is accepted exactly when it decodes and every label is one of
      the label values; the accepted prediction is then the decoded entries
      themselves, in order, with label values and reasons unchanged. A reply
      that does not decode fails with the decoder's error; one with a bad
      label fails with the positions of the bad labels. */
  lemma ParseAndValidateSpec(text: string, decode: string -> Result<seq<IntentEntry>, string>)
    ensures var r := ParseAndValidate(text, decode);
      r.Ok? <==> decode(text).Ok? && forall i :: 0 <= i < |decode(text).value| ==> IsLabelValue(decode(text).value[i].intent)
    ensures var r := ParseAndValidate(text, decode);
      r.Ok? ==> r.value.intents == decode(text).value
    ensures var r := ParseAndValidate(text, decode);
      decode(text).Err? ==> r == Err(DecodeFailed(decode(text).error))
    ensures var r := ParseAndValidate(text, decode);
      decode(text).Ok? && r.Err? ==> r.error == LabelsInvalid(InvalidPositions(decode(text).value, IsLabelValue))
  {
    if decode(text).Ok? {
      ValidateSpec(decode(text).value);
      NormaliseAfterValidate(decode(text).value);
    }
  }
}

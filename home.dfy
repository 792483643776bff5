/** The form callbacks of the prediction page (pages/home.py): assembling the
    inference evidence from the dropdown answers, the placeholder gauge value,
    the form-progress bar and the "clear form" button.

    A form is the ordered list of dropdown parameter names (the keys of the
    `dropdown_params` catalog, in catalog order) together with one optional
    value per dropdown; `None` is a dropdown the user has not answered. */
module Home {
  import opened Wrappers
  import Decimal
  import Rounding

  /** One name-mapping table: widget id ("dd_" + parameter) to model variable. */
  type NameTable = map<string, string>

  /** What the callbacks raise instead of returning. */
  datatype FormError =
    | NoNameTable   // `param_name_mapping[0]` on an empty list (or on the `{}` default)
    | NoParameters  // `filled / total` with an empty catalog

  /** What the gauge callback computes before it draws: the evidence and the gauge value. */
  datatype GaugeReading<V> = GaugeReading(evidence: map<string, V>, probability: int)

  datatype ProgressBar = ProgressBar(percent: nat, text: string)

  const WIDGET_PREFIX := "dd_"
  const UNKNOWN_PREFIX := "Unknown parameter: "
  const PERCENT_SUFFIX := " %"

  /** The id of the dropdown that asks for a parameter. */
  function WidgetId(param: string): string {
    WIDGET_PREFIX + param
  }

  /** The evidence variable an answered parameter is stored under: its entry in
      the name-mapping table, or a marked placeholder when it has none. */
  function EvidenceName(table: NameTable, param: string): (name: string)
    ensures WidgetId(param) in table ==> name == table[WidgetId(param)] && name in table.Values
    ensures WidgetId(param) !in table ==>
      |name| == |UNKNOWN_PREFIX| + |param| && name[..|UNKNOWN_PREFIX|] == UNKNOWN_PREFIX && name[|UNKNOWN_PREFIX|..] == param
  {
    if WidgetId(param) in table then table[WidgetId(param)] else UNKNOWN_PREFIX + param
  }

  /** Distinct parameters get distinct widget ids (so the clear-form dictionary
      has one entry per parameter). */
  lemma WidgetIdInjective(p: string, q: string)
    requires WidgetId(p) == WidgetId(q)
    ensures p == q
  {
    assert p == WidgetId(p)[|WIDGET_PREFIX|..];
  }

  /** Unmapped parameters never share a placeholder name. */
  lemma UnknownNamesDistinct(table: NameTable, p: string, q: string)
    requires WidgetId(p) !in table && WidgetId(q) !in table && p != q
    ensures EvidenceName(table, p) != EvidenceName(table, q)
  {
  }

  /** The number of (parameter, value) pairs `zip` produces. */
  function Paired<V>(params: seq<string>, values: seq<Option<V>>): (n: nat)
    ensures n <= |params| && n <= |values| && (n == |params| || n == |values|)
  {
    if |params| < |values| then |params| else |values|
  }

  /** The first name-mapping table, or an empty one when there is none. */
  function FirstTable(tables: seq<NameTable>): NameTable {
    if |tables| == 0 then map[] else tables[0]
  }

  predicate AnyAnswered<V>(values: seq<Option<V>>, k: nat)
    requires k <= |values|
  {
    exists i :: 0 <= i < k && values[i].Some?
  }

  /** The evidence after the first k pairs of the loop, in loop order: an
      answered pair (re)binds its evidence name to its raw value. */
  function EvidenceUpTo<V>(params: seq<string>, values: seq<Option<V>>, table: NameTable, k: nat): (e: map<string, V>)
    requires k <= |params| && k <= |values|
    ensures forall i :: 0 <= i < k && values[i].Some? ==> EvidenceName(table, params[i]) in e
    decreases k
  {
    if k == 0 then map[]
    else
      var e := EvidenceUpTo(params, values, table, k - 1);
      match values[k - 1]
      case None => e
      case Some(v) => e[EvidenceName(table, params[k - 1]) := v]
  }

  /** The evidence the whole loop builds over the pairs `zip` produces: one key
      per answered pair's evidence name, and nothing else. */
  function Evidence<V>(params: seq<string>, values: seq<Option<V>>, table: NameTable): (e: map<string, V>)
    ensures forall i :: 0 <= i < |params| && i < |values| && values[i].Some? ==> EvidenceName(table, params[i]) in e
    ensures e.Keys == AnsweredNames(params, values, table, Paired(params, values))
    ensures (forall i :: 0 <= i < |values| ==> values[i].None?) ==> e == map[]
  {
    var n := Paired(params, values);
    EvidenceKeys(params, values, table, n);
    assert (forall i :: 0 <= i < |values| ==> values[i].None?) ==> EvidenceUpTo(params, values, table, n) == map[] by {
      if forall i :: 0 <= i < |values| ==> values[i].None? {
        NoAnswersNoEvidence(params, values, table, n);
      }
    }
    EvidenceUpTo(params, values, table, n)
  }

  /** The evidence names of the answered pairs among the first k. */
  ghost function AnsweredNames<V>(params: seq<string>, values: seq<Option<V>>, table: NameTable, k: nat): set<string>
    requires k <= |params| && k <= |values|
  {
    set i | 0 <= i < k && values[i].Some? :: EvidenceName(table, params[i])
  }

  /** The number of answered dropdowns. */
  function Filled<V>(values: seq<Option<V>>): (n: nat)
    ensures n <= |values|
  {
    if values == [] then 0
    else Filled(values[..|values| - 1]) + (if values[|values| - 1].Some? then 1 else 0)
  }

  /** No dropdown counts as answered exactly when all are unanswered, and all
      count exactly when every one is answered. */
  lemma {:induction false} FilledExtremes<V>(values: seq<Option<V>>)
    ensures Filled(values) == 0 <==> forall i :: 0 <= i < |values| ==> values[i].None?
    ensures Filled(values) == |values| <==> forall i :: 0 <= i < |values| ==> values[i].Some?
  {
    if values != [] {
      var init := values[..|values| - 1];
      FilledExtremes(init);
      assert forall i :: 0 <= i < |init| ==> init[i] == values[i];
    }
  }

  /** The gauge callback: builds the evidence from the answered dropdowns and
      shows ten points per evidence entry in place of the inference result. */
  method DisplaySelectedValues<V>(params: seq<string>, values: seq<Option<V>>, tables: seq<NameTable>)
    returns (r: Result<GaugeReading<V>, FormError>)
    ensures r.Failure? <==> |tables| == 0 && AnyAnswered(values, Paired(params, values))
    ensures r.Failure? ==> r.error == NoNameTable
    ensures r.Success? ==> r.value.evidence == Evidence(params, values, FirstTable(tables))
    ensures r.Success? ==> r.value.probability == 10 * |r.value.evidence|
  {
    var n := Paired(params, values);
    var evidence: map<string, V> := map[];
    var i := 0;
    while i < n
      invariant 0 <= i <= n
      invariant evidence == EvidenceUpTo(params, values, FirstTable(tables), i)
      invariant |tables| == 0 ==> !AnyAnswered(values, i)
    {
      if values[i].Some? {
        if |tables| == 0 {
          return Failure(NoNameTable);
        }
        evidence := evidence[EvidenceName(tables[0], params[i]) := values[i].value];
      }
      i := i + 1;
    }
    var probability := |evidence| * 10;
    r := Success(GaugeReading(evidence, probability));
  }

  /** The evidence holds an entry exactly for the names of the answered
      dropdowns; unanswered ones never appear. */
  lemma {:induction false} EvidenceKeys<V>(params: seq<string>, values: seq<Option<V>>, table: NameTable, k: nat)
    requires k <= |params| && k <= |values|
    ensures EvidenceUpTo(params, values, table, k).Keys == AnsweredNames(params, values, table, k)
  {
    if k > 0 {
      EvidenceKeys(params, values, table, k - 1);
      var before := AnsweredNames(params, values, table, k - 1);
      var after := AnsweredNames(params, values, table, k);
      if values[k - 1].Some? {
        var name := EvidenceName(table, params[k - 1]);
        assert forall x :: x in after <==> x in before || x == name;
        assert after == before + {name};
      } else {
        assert after == before;
      }
    }
  }

  /** An answered dropdown's raw value is stored under its name unless a later
      answered dropdown has the same name: the later value wins. */
  lemma {:induction false} LastAnswerWins<V>(params: seq<string>, values: seq<Option<V>>, table: NameTable, k: nat, i: nat)
    requires k <= |params| && k <= |values|
    requires i < k && values[i].Some?
    requires forall j :: i < j < k && values[j].Some? ==> EvidenceName(table, params[j]) != EvidenceName(table, params[i])
    ensures EvidenceName(table, params[i]) in EvidenceUpTo(params, values, table, k)
    ensures EvidenceUpTo(params, values, table, k)[EvidenceName(table, params[i])] == values[i].value
  {
    if i < k - 1 {
      LastAnswerWins(params, values, table, k - 1, i);
    }
  }

  /** Every stored value is the raw answer of a dropdown whose evidence name
      is the key it is stored under. */
  lemma {:induction false} EvidenceValuesAnswered<V>(params: seq<string>, values: seq<Option<V>>, table: NameTable, k: nat, name: string)
    requires k <= |params| && k <= |values|
    requires name in EvidenceUpTo(params, values, table, k)
    ensures exists i :: 0 <= i < k && values[i] == Some(EvidenceUpTo(params, values, table, k)[name])
                        && EvidenceName(table, params[i]) == name
  {
    var e := EvidenceUpTo(params, values, table, k);
    if values[k - 1].Some? && EvidenceName(table, params[k - 1]) == name {
      assert values[k - 1] == Some(e[name]);
    } else {
      EvidenceValuesAnswered(params, values, table, k - 1, name);
    }
  }

  /** With nothing answered the evidence is empty and the gauge shows 0. */
  lemma {:induction false} NoAnswersNoEvidence<V>(params: seq<string>, values: seq<Option<V>>, table: NameTable, k: nat)
    requires k <= |params| && k <= |values|
    requires forall i :: 0 <= i < k ==> values[i].None?
    ensures EvidenceUpTo(params, values, table, k) == map[]
  {
    if k > 0 {
      NoAnswersNoEvidence(params, values, table, k - 1);
    }
  }

  /** The evidence never has more entries than there are answered dropdowns,
      and exactly as many when no two parameters share an evidence name. */
  lemma {:induction false} EvidenceSize<V>(params: seq<string>, values: seq<Option<V>>, table: NameTable, k: nat)
    requires k <= |params| && k <= |values|
    ensures |EvidenceUpTo(params, values, table, k)| <= Filled(values[..k])
    ensures (forall i, j :: 0 <= i < j < k ==> EvidenceName(table, params[i]) != EvidenceName(table, params[j]))
            ==> |EvidenceUpTo(params, values, table, k)| == Filled(values[..k])
  {
    if k > 0 {
      EvidenceSize(params, values, table, k - 1);
      assert values[..k][..k - 1] == values[..k - 1];
      var e := EvidenceUpTo(params, values, table, k - 1);
      assert Filled(values[..k]) == Filled(values[..k - 1]) + (if values[k - 1].Some? then 1 else 0);
      if values[k - 1].Some? {
        var name := EvidenceName(table, params[k - 1]);
        assert EvidenceUpTo(params, values, table, k) == e[name := values[k - 1].value];
        if forall i, j :: 0 <= i < j < k ==> EvidenceName(table, params[i]) != EvidenceName(table, params[j]) {
          EvidenceKeys(params, values, table, k - 1);
          assert name !in e;
        }
      }
    }
  }

  /** The progress bar's caption: "<percent> %" from 5 % on, empty below. */
  function ProgressLabel(percent: nat): (text: string)
    ensures text != [] <==> percent >= 5
    ensures text != [] ==> |text| > |PERCENT_SUFFIX|
    ensures text != [] ==>
      var digits := text[..|text| - |PERCENT_SUFFIX|];
      && text == digits + PERCENT_SUFFIX
      && digits == Decimal.ToString(percent)
      && Decimal.Parse(digits) == percent
  {
    Decimal.ParseToString(percent);
    if percent >= 5 then
      var text := Decimal.ToString(percent) + PERCENT_SUFFIX;
      assert text[..|text| - |PERCENT_SUFFIX|] == Decimal.ToString(percent);
      text
    else ""
  }

  /** The progress callback: the rounded percentage of answered dropdowns and
      its caption. */
  function UpdateProgressBar<V>(params: seq<string>, values: seq<Option<V>>): (r: Result<ProgressBar, FormError>)
    requires |values| == |params|
    ensures r.Failure? <==> |params| == 0
    ensures r.Success? ==> 2 * Rounding.Abs(100 * Filled(values) - r.value.percent * |params|) <= |params|
    ensures r.Success? && 2 * Rounding.Abs(100 * Filled(values) - r.value.percent * |params|) == |params|
            ==> r.value.percent % 2 == 0
    ensures r.Success? ==> r.value.percent <= 100
    ensures r.Success? && Filled(values) == |params| ==> r.value.percent == 100
    ensures r.Success? && Filled(values) == 0 ==> r.value.percent == 0
    ensures r.Success? ==> r.value.text == ProgressLabel(r.value.percent)
  {
    if |params| == 0 then Failure(NoParameters)
    else
      var total, filled := |params|, Filled(values);
      Rounding.PercentBounds(filled, total);
      Rounding.PercentAllFilled(total);
      var percent := Rounding.Percent(filled, total);
      Success(ProgressBar(percent, ProgressLabel(percent)))
  }

  /** Answering one more dropdown never lowers the progress bar. */
  lemma {:induction false} ProgressMonotone<V>(params: seq<string>, values: seq<Option<V>>, i: nat, v: V)
    requires |values| == |params| > 0 && i < |values|
    ensures UpdateProgressBar(params, values).value.percent
         <= UpdateProgressBar(params, values[i := Some(v)]).value.percent
  {
    FilledUpdate(values, i, v);
    Rounding.PercentMonotone(Filled(values), Filled(values[i := Some(v)]), |params|);
  }

  /** Answering a dropdown raises the count of answered ones by one if it was
      unanswered and leaves it as it was otherwise. */
  lemma {:induction false} FilledUpdate<V>(values: seq<Option<V>>, i: nat, v: V)
    requires i < |values|
    ensures Filled(values[i := Some(v)]) == Filled(values) + (if values[i].None? then 1 else 0)
    decreases |values|
  {
    var w := values[i := Some(v)];
    var last := |values| - 1;
    if i < last {
      assert w[..last] == values[..last][i := Some(v)];
      FilledUpdate(values[..last], i, v);
    } else {
      assert w[..last] == values[..last];
    }
  }

  /** The clear button: one `None` per dropdown in catalog order once the
      button has been clicked, otherwise no update at all (`None`). */
  function ClearForm<V>(nClicks: Option<int>, params: seq<string>): (r: Option<seq<Option<V>>>)
    ensures r.Some? <==> nClicks.Some? && nClicks.value > 0
    ensures r.Some? ==> |r.value| == |params| && forall i :: 0 <= i < |r.value| ==> r.value[i].None?
  {
    if nClicks.Some? && nClicks.value > 0 then
      Some(seq(|params|, _ => None))
    else
      None
  }

  /** Filling a cleared form back into the callbacks: no evidence, a zero
      gauge and an empty progress bar. */
  lemma ClearedFormIsEmpty<V>(params: seq<string>, tables: seq<NameTable>)
    requires |params| > 0
    ensures
      var cleared := ClearForm<V>(Some(1), params).value;
      && Evidence(params, cleared, FirstTable(tables)) == map[]
      && UpdateProgressBar(params, cleared) == Success(ProgressBar(0, ""))
  {
    var cleared := ClearForm<V>(Some(1), params).value;
    FilledExtremes(cleared);
    NoAnswersNoEvidence(params, cleared, FirstTable(tables), |params|);
  }

  /** The dictionary the clear button builds is keyed by widget id; as the
      parameters are the keys of the catalog (so distinct), every parameter
      keeps its own key and the update has one entry per dropdown. */
  lemma ClearFormKeysDistinct(params: seq<string>)
    requires forall i, j :: 0 <= i < j < |params| ==> params[i] != params[j]
    ensures forall i, j :: 0 <= i < j < |params| ==> WidgetId(params[i]) != WidgetId(params[j])
  {
    forall i, j | 0 <= i < j < |params|
      ensures WidgetId(params[i]) != WidgetId(params[j])
    {
      if WidgetId(params[i]) == WidgetId(params[j]) {
        WidgetIdInjective(params[i], params[j]);
      }
    }
  }
}

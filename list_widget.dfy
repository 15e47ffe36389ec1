/**
 * The list widget (`ListWidget.ts`): the values the user selected from a list
 * of URIs, and the SPARQL pattern they produce. One value is written as a
 * single triple pattern; any other number of values becomes one `VALUES`
 * block (section 10.2 of the SPARQL 1.1 Query Language) with one row per value.
 */
module ListWidgets {
  import opened Wrappers

  /** The RDF/JS terms the patterns use. */
  datatype Term = Variable(name: string) | NamedNode(iri: string)

  /** `SparqlFactory.buildTriple(subject, predicate, object)`. */
  datatype Triple = Triple(subj: Term, pred: Term, obj: Term)

  /** A basic graph pattern, or a `VALUES` block whose rows map a variable name to a term. */
  datatype Pattern = Bgp(triples: seq<Triple>) | Values(rows: seq<map<string, Term>>)

  /** The selected start class, property and end class of the criterion (`typeUri` is its `type`). */
  datatype SelectedVal = SelectedVal(variable: string, typeUri: string)

  datatype ValueRepetition = Single | Multiple

  /** A `ListWidgetValue`: the repetition (absent in the values the selection handlers build)
      and the value's key, label and URI. */
  datatype ListWidgetValue = ListWidgetValue(repetition: Option<ValueRepetition>, key: string, labelText: string, uri: string)

  /** A selected `<option>`: its `value` attribute and its label (`labelText`). */
  datatype SelectOption = SelectOption(value: string, labelText: string)

  datatype SelectionError =
    | MoreThanOneSelected   // `Error('List widget should allow only for one el to be selected!')`
    | NothingSelected       // reading `.value` of the missing `option[0]` throws a `TypeError`

  class ListWidget {
    var widgetValues: seq<ListWidgetValue>
    var startClassVal: SelectedVal
    var objectPropVal: SelectedVal
    var endClassVal: SelectedVal
    /** `getVariableValue`, inherited from the widget base class. */
    const variableValue: SelectedVal -> string

    /** `new ListWidget(…, startClassVal, objectPropVal, endClassVal)`, with no value selected
        yet. */
    constructor(startClassVal: SelectedVal, objectPropVal: SelectedVal, endClassVal: SelectedVal,
                variableValue: SelectedVal -> string)
      ensures this.startClassVal == startClassVal
      ensures this.objectPropVal == objectPropVal
      ensures this.endClassVal == endClassVal
      ensures this.variableValue == variableValue
      ensures widgetValues == []
    {
      this.startClassVal := startClassVal;
      this.objectPropVal := objectPropVal;
      this.endClassVal := endClassVal;
      this.variableValue := variableValue;
      widgetValues := [];
    }

    /** `buildValue(uri, label)` (`text` is the label): a value that may be repeated, keyed by its URI. */
    function BuildValue(uri: string, text: string): (v: ListWidgetValue)
      ensures v.repetition == Some(Multiple)
      ensures v.key == uri && v.uri == uri && v.labelText == text
    {
      ListWidgetValue(Some(Multiple), uri, text, uri)
    }

    /** `parseInput(input)`: the value as it is. */
    function ParseInput(input: ListWidgetValue): (v: ListWidgetValue)
      ensures v == input
    {
      input
    }

    /** `isBlockingObjectProp()`: the widget writes the triple itself, without a `VALUES`
        block, exactly when one value is selected. */
    function IsBlockingObjectProp(): (b: bool)
      reads this
      ensures b <==> |widgetValues| == 1
    {
      |widgetValues| == 1
    }

    /** `isBlockingEnd()`: no type constraint on the end class is needed once a value is
        selected. */
    function IsBlockingEnd(): (b: bool)
      reads this
      ensures b <==> widgetValues != []
    {
      |widgetValues| > 0
    }

    /** `getRdfJsPattern()`: one pattern, a single triple from the start variable through the
        property to the value when one value is selected, otherwise a `VALUES` block binding the
        end variable to each value's URI in order, with no row merged or dropped (and no row at
        all when nothing is selected). */
    function GetRdfJsPattern(): (r: seq<Pattern>)
      reads this
      ensures |r| == 1
      ensures r[0].Bgp? <==> |widgetValues| == 1
      ensures r[0].Bgp? ==>
                r[0].triples == [Triple(Variable(variableValue(startClassVal)), NamedNode(objectPropVal.typeUri),
                                        NamedNode(widgetValues[0].uri))]
      ensures r[0].Values? ==>
                && |r[0].rows| == |widgetValues|
                && forall i :: 0 <= i < |widgetValues| ==>
                     r[0].rows[i] == map[endClassVal.variable := NamedNode(widgetValues[i].uri)]
    {
      if |widgetValues| == 1 then
        var singleTriple := Triple(Variable(variableValue(startClassVal)), NamedNode(objectPropVal.typeUri),
                                   NamedNode(widgetValues[0].uri));
        [Bgp([singleTriple])]
      else
        var vals := seq(|widgetValues|, i requires 0 <= i < |widgetValues| reads this =>
                          map[endClassVal.variable := NamedNode(widgetValues[i].uri)]);
        [Values(vals)]
    }
  }

  /** The value the list's `change` and `select2:close` handlers build from the selected
      options, before handing it to the widget. */
  function SelectedValue(options: seq<SelectOption>): (r: Result<ListWidgetValue, SelectionError>)
    ensures r == Failure(MoreThanOneSelected) <==> |options| > 1
    ensures r == Failure(NothingSelected) <==> options == []
    ensures r.Success? ==> |options| == 1 && r.value.repetition.None?
                           && r.value.key == options[0].value && r.value.uri == options[0].value
                           && r.value.labelText == options[0].labelText
  {
    if |options| > 1 then Failure(MoreThanOneSelected)
    else if options == [] then Failure(NothingSelected)
    else Success(ListWidgetValue(None, options[0].value, options[0].labelText, options[0].value))
  }

  /** A single triple is written exactly when the widget blocks the object property, and a
      widget that does so also blocks the end class. */
  lemma PatternFollowsBlocking(w: ListWidget)
    ensures w.GetRdfJsPattern()[0].Bgp? <==> w.IsBlockingObjectProp()
    ensures w.GetRdfJsPattern()[0].Values? <==> !w.IsBlockingObjectProp()
    ensures w.IsBlockingObjectProp() ==> w.IsBlockingEnd()
  {
  }

  /** With nothing selected the pattern is a `VALUES` block without rows, not an empty list. */
  lemma NoValueGivesEmptyValues(w: ListWidget)
    requires w.widgetValues == []
    ensures w.GetRdfJsPattern() == [Values([])]
    ensures !w.IsBlockingEnd()
  {
  }

  /** The URIs bound by the `VALUES` rows are the URIs of the selected values, in order. */
  lemma ValuesRowsRoundTrip(w: ListWidget)
    requires |w.widgetValues| != 1
    ensures var rows := w.GetRdfJsPattern()[0].rows;
            forall i :: 0 <= i < |rows| ==>
              w.endClassVal.variable in rows[i] && rows[i][w.endClassVal.variable].NamedNode?
              && rows[i][w.endClassVal.variable].iri == w.widgetValues[i].uri
  {
  }

  /** The value a single selection builds is the one `buildValue` builds from the option,
      except that it carries no repetition. */
  lemma SelectionMatchesBuildValue(w: ListWidget, option: SelectOption)
    ensures SelectedValue([option]).Success?
    ensures SelectedValue([option]).value == w.BuildValue(option.value, option.labelText).(repetition := None)
  {
  }
}

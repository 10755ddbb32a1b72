/**
 * The "Predecir" button: the form's numbers are checked first, and only a
 * complete form reaches the trained model, which receives the assembled
 * feature row. The model itself is a parameter: any deterministic function
 * from a feature row to a forecast, or to a failure (an exception it raises).
 */
module Prediction {
  import opened Wrappers
  import opened Features

  /**
   * The button's check: the form is complete unless the population is 0 or
   * a measure is not above 0.
   */
  predicate Complete(form: Form) {
    !(form.habitantes == 0 || form.metales <= 0.0 || form.indice <= 0.0)
  }

  /**
   * With the numbers the widgets allow (none below 0), complete means all
   * three numbers are strictly positive.
   */
  lemma CompleteMeansPositive(form: Form, provincias: seq<string>, diagnosticos: seq<string>)
    requires FromWidgets(form, provincias, diagnosticos)
    ensures Complete(form) <==> form.habitantes > 0 && form.metales > 0.0 && form.indice > 0.0
  {
  }

  /** What the page shows after the button is pressed. */
  datatype Outcome<P> =
    | MissingFields         // "COMPLETAR TODOS LOS CAMPOS"
    | Forecast(value: P)    // the model's forecast
    | PredictionError       // the model raised; a generic error is shown

  /**
   * The button's effect: an incomplete form is turned away without a
   * forecast; a complete one shows the model's answer on the assembled row,
   * or an error when the model fails.
   */
  function OnPredict<P>(form: Form, schema: seq<string>, model: seq<Cell> -> Option<P>): (r: Outcome<P>)
    ensures r.MissingFields? <==> !Complete(form)
    ensures r.Forecast? ==> model(FeatureRow(form, schema)) == Some(r.value)
    ensures r.PredictionError? <==> Complete(form) && model(FeatureRow(form, schema)).None?
  {
    if !Complete(form) then MissingFields
    else
      match model(FeatureRow(form, schema))
      case Some(p) => Forecast(p)
      case None => PredictionError
  }

  /**
   * The model is not consulted for an incomplete form: whatever model is
   * loaded, the page shows the same thing.
   */
  lemma IncompleteIgnoresModel<P>(form: Form, schema: seq<string>,
                                  m1: seq<Cell> -> Option<P>, m2: seq<Cell> -> Option<P>)
    requires !Complete(form)
    ensures OnPredict(form, schema, m1) == OnPredict(form, schema, m2) == MissingFields
  {
  }

  /**
   * The page script: the row is assembled on every run, then the button
   * checks the form and, only if it is complete, calls the model on that row.
   * `calls` lists the rows the model was asked about.
   */
  method PressPredict<P>(form: Form, schema: seq<string>, model: seq<Cell> -> Option<P>)
    returns (shown: Outcome<P>, ghost calls: seq<seq<Cell>>)
    ensures shown == OnPredict(form, schema, model)
    ensures calls == if Complete(form) then [FeatureRow(form, schema)] else []
    ensures forall row :: row in calls ==> |row| == |schema|
  {
    var row := AssembleRow(form, schema);
    calls := [];
    if !Complete(form) {
      shown := MissingFields;
    } else {
      calls := calls + [row];
      var answer := model(row);
      match answer {
        case Some(p) => shown := Forecast(p);
        case None => shown := PredictionError;
      }
    }
  }
}

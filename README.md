# Hospitalisation forecast form — feature assembly model

The application is a single Streamlit page. The user picks a province, a
diagnosis and a sex, types a population count, a heavy-metals measure and a
contamination index, and presses "Predecir". The page turns these answers
into a one-row table whose columns are exactly the columns the trained
random-forest model was fitted on, and shows the model's forecast.

This project models the logic between the widgets and the model call:

- **Catalogue** — the province and diagnosis option lists,
  `sorted(column.unique())` over the reference table. Strings are ordered as
  Python orders `str` (code point by code point). `Unique` lists each
  value once (its contract does not fix their order, which `sorted`
  discards), `Sort` is an insertion sort, and `Options` is the composition:
  strictly ascending and holding exactly the column's values.
- **Features** — the one-row table (`Frame`: ordered column names plus a
  value per column), built from the dict literal of the six answers
  (`FromEntries` over `Literal`), the loop that appends every schema column
  still missing with value 0 (`FillMissing`, a method with a loop), and the
  projection onto the schema (`Project`). `AssembleRow` runs the three steps
  and is proved equal to `FeatureRow`, an independent column-by-column
  definition of the row the model expects. Column assignment (`frame[c] = v`)
  is one function, `SetColumn`, used both by the literal and by the loop.
- **Prediction** — the button's completeness check (`Complete`), and what
  the page shows (`OnPredict`, `PressPredict`): a missing-fields message, the
  model's forecast, or a generic error. The model is a parameter, a function
  from a feature row to `Some(forecast)` or `None` (it raised).

Numbers are only copied, never computed: the population is an `int` and the
two measures are `real`; a cell is `Int` or `Real` as pandas keeps integer
and float columns apart.

The check at app.py:111 rejects a population EQUAL to 0 rather than any
non-positive population, and the model keeps that: a negative population
would pass it. The widget's `min_value=0` keeps that
from happening, and `Prediction.CompleteMeansPositive` states the check
under the widgets' bounds.

## Model

| member | source | states |
|---|---|---|
| Catalogue.Unique | app.py:67-68 | `unique()` yields every value of the column exactly once: no duplicates, same values, never longer |
| Catalogue.Sort | app.py:67-68 | `sorted` yields a sorted permutation of its input (same multiset), and keeps a duplicate-free list duplicate-free |
| Catalogue.BelowTotal | app.py:67-68 | the string order `sorted` uses is total: two different strings are ordered one way or the other |
| Catalogue.BelowTransitive | app.py:67-68 | the string order `sorted` uses is transitive |
| Catalogue.Options | app.py:67-68 | an option list is strictly ascending (sorted, no duplicates) and its elements are exactly the values in the column |
| Catalogue.OptionsDependOnlyOnValues | app.py:67-68 | two columns with the same set of values give the same option list, whatever the row order or repetitions |
| Catalogue.AscendingDeterminedByElements | app.py:67-68 | a strictly ascending list is determined by its set of elements |
| Features.SelectedColumnsDistinct | app.py:91-98 | the six column names of the dict literal are pairwise different for every selection, so no entry overrides another |
| Features.SetColumn | app.py:103 | assigning a column keeps the table well formed, sets that column's value, and keeps the existing columns in place (appending the new one) |
| Features.FromEntriesColumns | app.py:91-98 | the literal's table has exactly the column names written in the literal |
| Features.FromEntriesValues | app.py:91-98 | each column of the literal's table holds the value written last for it |
| Features.FromEntriesOrder | app.py:91-98 | with no name written twice, the table's columns are in writing order |
| Features.FromEntries | app.py:91-98 | the dict literal's table is built entry by entry as column assignments and is always well formed (unique column names, each naming exactly one value) |
| Features.LiteralEntry | app.py:91-98 | each literal entry writes the value the form gives its column (numbers copied, selected dummies 1) |
| Features.InitialFrame | app.py:91-98 | the initial table has the six selected columns in order, each holding the form's value for it |
| Features.FillMissing | app.py:101-103 | the loop adds exactly the missing schema columns, with value 0, appended in schema order at their first occurrence (`Appended`); it never overwrites or moves a column already present |
| Features.AppendedColumns | app.py:101-103 | the columns the loop appends are exactly the schema columns the table lacked, each once |
| Features.FilledCellsAgree | app.py:91-103 | after the fill every schema column is present and holds the form's value for it: the initial table's value, or 0 |
| Features.Project | app.py:104 | `frame[schema]` succeeds exactly when every schema column is present, and then gives one value per schema column, in schema order |
| Features.AssembleRow | app.py:91-104 | building, filling and projecting never fails and yields exactly the column-by-column row `FeatureRow` (length and order of the schema) |
| Features.NumericInputsCopied | app.py:91-104 | each of `Habitantes`, `Metales Pesados`, `Indice_Contaminación` present in the schema carries the typed number at its position |
| Features.SelectedDummiesSet | app.py:95-104 | the dummy columns of the chosen diagnosis, province and sex, where the schema has them, hold 1 |
| Features.OtherColumnsZero | app.py:101-104 | every schema column that is not one of the six selected columns holds 0 |
| Features.AbsentDiagnosisDropped | app.py:95-104 | a diagnosis whose dummy column is not in the schema leaves no trace: switching to it zeroes the old diagnosis's column and changes nothing else |
| Features.ExampleRow | app.py:91-104 | on the schema of the six form columns, with inputs 100, 0.5, 2.0 and diagnosis X, the row is [100, 0.5, 2.0, 1, 1, 1] |
| Features.ExampleUnknownDiagnosis | app.py:91-104 | on the same schema with diagnosis Z, which has no column there, the row is [100, 0.5, 2.0, 0, 1, 1] |
| Prediction.CompleteMeansPositive | app.py:86-111 | under the widgets' bounds (numbers at least 0, selections from their options) the guard `Complete` of app.py:111 passes exactly when all three numbers are strictly positive |
| Prediction.OnPredict | app.py:111-131 | the missing-fields message is shown exactly when the guard `Complete` (app.py:111) fails; otherwise the model's answer on the assembled row is shown, or the error when the model fails |
| Prediction.IncompleteIgnoresModel | app.py:111-117 | for an incomplete form the outcome is the missing-fields message whatever the model is: the model is not consulted |
| Prediction.PressPredict | app.py:91-131 | the page script shows `OnPredict`'s outcome and calls the model once, on the assembled row, only when the form is complete, and never otherwise |

## Left out

- Page layout, CSS and HTML strings, and the message texts (app.py:7-19, 74-88, 107, 112-117, 122-135): rendering only; the outcomes are named by `Prediction.Outcome`.
- The background image (app.py:22-50): file reading and base64 encoding.
- Loading the model, the schema and the reference table, and the `st.stop()` paths when a file is missing (app.py:53-71): file I/O. The schema and the catalogue columns are plain inputs.
- `modelo.predict` (app.py:120): an opaque call, modelled as a function parameter; a raised exception is `None`. Its internals and any nondeterminism are not modelled.
- `int(prediccion[0])` (app.py:125): the float-to-int truncation of the forecast; the forecast is of an abstract type.
- Floating point: the two measures are `real`, so IEEE rounding, NaN and infinities are not modelled.
- Catalogue.Options: a column holding missing values (NaN) or non-strings is not modelled; Python's `sorted` would raise or order mixed types differently.
- Streamlit's rerun model and widget state across reruns: one run of the page is modelled, with the answers given as a `Form`.
- Duplicate names in the schema: the model gives each occurrence the column's value, position by position; pandas' duplicate-column handling beyond that is not modelled.

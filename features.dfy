/**
 * Assembly of the one-row feature table handed to the trained model: the
 * form's answers become six columns, every column of the trained schema that
 * is still missing is added with value 0, and the table is then cut down to
 * the schema's columns, in the schema's order.
 */
module Features {
  import opened Wrappers
  import Catalogue

  /** One cell of the table; pandas keeps integer and float columns apart. */
  datatype Cell = Int(i: int) | Real(r: real)

  /** Names of the three numeric columns. */
  const Population := "Habitantes"
  const HeavyMetals := "Metales Pesados"
  const Contamination := "Indice_Contaminación"

  /** The two choices of the sex selector. */
  const Sexes := ["Hombres", "Mujeres"]

  /** Dummy-column names, `<field>_<value>`. */
  function DiagnosisColumn(d: string): string { "Diagnóstico_" + d }
  function ProvinceColumn(p: string): string { "Provincia_" + p }
  function SexColumn(s: string): string { "Sexo_" + s }

  /**
   * The text an f-string gives a selector's value: the value itself, or
   * "None" when the selector had no options to choose from.
   */
  function Label(choice: Option<string>): string {
    match choice
    case Some(v) => v
    case None => "None"
  }

  /** The answers on the form at one moment. */
  datatype Form = Form(
    provincia: Option<string>,
    diagnostico: Option<string>,
    sexo: string,
    habitantes: int,
    metales: real,
    indice: real)

  /**
   * What the widgets allow: a selection is one of its options (and is absent
   * only when there are none), the sex is one of two, and the three numbers
   * are at least 0.
   */
  predicate FromWidgets(form: Form, provincias: seq<string>, diagnosticos: seq<string>) {
    && (form.provincia.Some? ==> form.provincia.value in provincias)
    && (form.provincia.None? <==> provincias == [])
    && (form.diagnostico.Some? ==> form.diagnostico.value in diagnosticos)
    && (form.diagnostico.None? <==> diagnosticos == [])
    && form.sexo in Sexes
    && form.habitantes >= 0 && form.metales >= 0.0 && form.indice >= 0.0
  }

  /** The dict literal that starts the table: six (column, value) entries, in writing order. */
  function Literal(form: Form): seq<(string, Cell)> {
    [ (Population, Int(form.habitantes)),
      (HeavyMetals, Real(form.metales)),
      (Contamination, Real(form.indice)),
      (DiagnosisColumn(Label(form.diagnostico)), Int(1)),
      (ProvinceColumn(Label(form.provincia)), Int(1)),
      (SexColumn(form.sexo), Int(1)) ]
  }

  /** The six column names the form itself produces, in writing order. */
  function SelectedColumns(form: Form): seq<string> {
    [ Population, HeavyMetals, Contamination,
      DiagnosisColumn(Label(form.diagnostico)),
      ProvinceColumn(Label(form.provincia)),
      SexColumn(form.sexo) ]
  }

  /** What the form says column `c` holds: its answer, 1 for a selected dummy, 0 otherwise. */
  function ColumnValue(form: Form, c: string): Cell {
    if c == Population then Int(form.habitantes)
    else if c == HeavyMetals then Real(form.metales)
    else if c == Contamination then Real(form.indice)
    else if c in SelectedColumns(form) then Int(1)
    else Int(0)
  }

  /**
   * The six names differ whatever the selections are: they begin with six
   * different letters. So no entry of the dict literal overrides another.
   */
  lemma SelectedColumnsDistinct(form: Form)
    ensures Catalogue.Distinct(SelectedColumns(form))
  {
    var cs := SelectedColumns(form);
    assert cs[0][0] == 'H' && cs[1][0] == 'M' && cs[2][0] == 'I';
    assert cs[3][0] == 'D' && cs[4][0] == 'P' && cs[5][0] == 'S';
    forall i, j | 0 <= i < j < 6 ensures cs[i] != cs[j] {
      assert cs[i][0] != cs[j][0];
    }
  }

  /**
   * The one-row table: its column names in order, and each column's value.
   */
  datatype Frame = Frame(columns: seq<string>, cells: map<string, Cell>) {
    /** Column names are unique and name exactly the columns that hold a value. */
    predicate Valid() {
      && Catalogue.Distinct(columns)
      && (forall c :: c in cells ==> c in columns)
      && (forall c :: c in columns ==> c in cells)
    }
  }

  /**
   * `frame[c] = v`: overwrite column `c`, or append it as the last column
   * when the table does not have it yet.
   */
  function SetColumn(f: Frame, c: string, v: Cell): (g: Frame)
    requires f.Valid()
    ensures g.Valid()
    ensures g.cells == f.cells[c := v]
    ensures |g.columns| == |f.columns| + (if c in f.cells then 0 else 1)
    ensures forall k :: 0 <= k < |f.columns| ==> g.columns[k] == f.columns[k]
  {
    if c in f.columns then Frame(f.columns, f.cells[c := v])
    else Frame(f.columns + [c], f.cells[c := v])
  }

  /** The keys of a list of entries. */
  function Keys(entries: seq<(string, Cell)>): seq<string> {
    if entries == [] then []
    else Keys(entries[..|entries| - 1]) + [entries[|entries| - 1].0]
  }

  /** Position by position, the keys are the names the entries write. */
  lemma {:induction false} KeysAt(entries: seq<(string, Cell)>)
    ensures |Keys(entries)| == |entries|
    ensures forall i :: 0 <= i < |entries| ==> Keys(entries)[i] == entries[i].0
  {
    if entries != [] {
      var init := entries[..|entries| - 1];
      KeysAt(init);
      forall i | 0 <= i < |init| ensures Keys(entries)[i] == entries[i].0 {
        assert entries[i] == init[i];
      }
    }
  }

  /**
   * A table built from a dict literal, entry after entry: each entry is a
   * column assignment.
   */
  function FromEntries(entries: seq<(string, Cell)>): (f: Frame)
    ensures f.Valid()
  {
    if entries == [] then Frame([], map[])
    else SetColumn(FromEntries(entries[..|entries| - 1]), entries[|entries| - 1].0, entries[|entries| - 1].1)
  }

  /** Entry `i` is the last one written for its column. */
  predicate LastWritten(entries: seq<(string, Cell)>, i: nat)
    requires i < |entries|
  {
    forall j :: i < j < |entries| ==> entries[j].0 != entries[i].0
  }

  /** The dict literal's table has exactly the columns written in it. */
  lemma {:induction false} FromEntriesColumns(entries: seq<(string, Cell)>)
    ensures forall c :: c in FromEntries(entries).cells <==> c in Keys(entries)
  {
    if entries != [] {
      var init := entries[..|entries| - 1];
      FromEntriesColumns(init);
      assert Keys(entries) == Keys(init) + [entries[|entries| - 1].0];
    }
  }

  /** Each column of the dict literal's table holds the value written last for it. */
  lemma {:induction false} FromEntriesValues(entries: seq<(string, Cell)>, i: nat)
    requires i < |entries| && LastWritten(entries, i)
    ensures entries[i].0 in FromEntries(entries).cells
    ensures FromEntries(entries).cells[entries[i].0] == entries[i].1
  {
    var init := entries[..|entries| - 1];
    if i < |init| {
      assert entries[i] == init[i];
      assert LastWritten(init, i);
      FromEntriesValues(init, i);
    }
  }

  /** When no name is written twice, the columns stand in writing order. */
  lemma {:induction false} FromEntriesOrder(entries: seq<(string, Cell)>)
    requires Catalogue.Distinct(Keys(entries))
    ensures FromEntries(entries).columns == Keys(entries)
  {
    if entries != [] {
      var init := entries[..|entries| - 1];
      var last := entries[|entries| - 1];
      assert Keys(entries) == Keys(init) + [last.0];
      var ks := Keys(init);
      assert forall i :: 0 <= i < |ks| ==> Keys(entries)[i] == ks[i];
      assert Catalogue.Distinct(ks);
      assert forall k :: 0 <= k < |ks| ==> ks[k] != Keys(entries)[|ks|];
      FromEntriesOrder(init);
      FromEntriesColumns(init);
      assert last.0 !in ks;
    }
  }

  /** Entry `i` of the dict literal writes the value the form gives its column. */
  lemma LiteralEntry(form: Form, i: nat)
    requires i < 6
    ensures Literal(form)[i].0 == SelectedColumns(form)[i]
    ensures Literal(form)[i].1 == ColumnValue(form, SelectedColumns(form)[i])
  {
    var cs := SelectedColumns(form);
    SelectedColumnsDistinct(form);
    assert cs[i] in cs;
    if i >= 3 {
      assert cs[i] != cs[0] && cs[i] != cs[1] && cs[i] != cs[2];
    }
  }

  /** The table right after the dict literal: the six selected columns. */
  function InitialFrame(form: Form): (f: Frame)
    ensures f.Valid()
    ensures f.columns == SelectedColumns(form)
    ensures forall c :: c in f.cells ==> f.cells[c] == ColumnValue(form, c)
  {
    var entries := Literal(form);
    var cs := SelectedColumns(form);
    SelectedColumnsDistinct(form);
    KeysAt(entries);
    assert Keys(entries) == cs;
    FromEntriesOrder(entries);
    var f := FromEntries(entries);
    assert forall c :: c in f.cells ==> f.cells[c] == ColumnValue(form, c) by {
      forall c | c in f.cells ensures f.cells[c] == ColumnValue(form, c) {
        var i :| 0 <= i < 6 && cs[i] == c;
        assert LastWritten(entries, i);
        FromEntriesValues(entries, i);
        LiteralEntry(form, i);
      }
    }
    f
  }

  /**
   * The columns the loop appends to a table whose columns are `present`:
   * every schema column the table lacks, once, in the order of its first
   * occurrence in the schema.
   */
  function Appended(present: seq<string>, schema: seq<string>): seq<string>
    decreases |schema|
  {
    if schema == [] then []
    else if schema[0] in present then Appended(present, schema[1..])
    else [schema[0]] + Appended(present + [schema[0]], schema[1..])
  }

  /**
   * The appended columns are exactly the schema columns not present before,
   * each once.
   */
  lemma {:induction false} AppendedColumns(present: seq<string>, schema: seq<string>)
    ensures Catalogue.Distinct(Appended(present, schema))
    ensures forall c :: c in Appended(present, schema) <==> c in schema && c !in present
    decreases |schema|
  {
    if schema != [] {
      var c0, rest := schema[0], schema[1..];
      assert schema == [c0] + rest;
      if c0 in present {
        AppendedColumns(present, rest);
      } else {
        AppendedColumns(present + [c0], rest);
        var tail := Appended(present + [c0], rest);
        assert c0 !in tail;
        forall i, j | 0 <= i < j < |[c0] + tail| ensures ([c0] + tail)[i] != ([c0] + tail)[j] {
          assert ([c0] + tail)[j] == tail[j - 1];
          if i > 0 { assert ([c0] + tail)[i] == tail[i - 1]; }
        }
      }
    }
  }

  /**
   * The loop over the trained schema: every schema column the table lacks is
   * appended with value 0. Columns already present keep their value and
   * place; nothing but schema columns is added.
   */
  method FillMissing(f: Frame, schema: seq<string>) returns (g: Frame)
    requires f.Valid()
    ensures g.Valid()
    ensures g.columns == f.columns + Appended(f.columns, schema)
    ensures forall c :: c in g.cells <==> c in f.cells || c in schema
    ensures forall c :: c in f.cells ==> g.cells[c] == f.cells[c]
    ensures forall c :: c in g.cells && c !in f.cells ==> g.cells[c] == Int(0)
  {
    g := f;
    var i := 0;
    while i < |schema|
      invariant 0 <= i <= |schema|
      invariant g.Valid()
      invariant f.columns + Appended(f.columns, schema) == g.columns + Appended(g.columns, schema[i..])
      invariant forall c :: c in f.cells ==> c in g.cells
      invariant forall c :: c in f.cells ==> g.cells[c] == f.cells[c]
      invariant forall c :: c in g.cells && c !in f.cells ==> g.cells[c] == Int(0)
    {
      var col := schema[i];
      assert schema[i..] == [col] + schema[i + 1..];
      if col !in g.columns {
        var before := g.columns;
        g := SetColumn(g, col, Int(0));
        assert g.columns == before + [col];
        assert before + Appended(before, schema[i..]) == g.columns + Appended(g.columns, schema[i + 1..]);
      }
      i := i + 1;
    }
    AppendedColumns(f.columns, schema);
  }

  /**
   * `frame[schema]`: the values of the schema's columns in the schema's
   * order, or None (pandas raises KeyError) when one of them is missing.
   */
  function Project(f: Frame, schema: seq<string>): (r: Option<seq<Cell>>)
    ensures r.Some? <==> forall c :: c in schema ==> c in f.cells
    ensures r.Some? ==> |r.value| == |schema|
    ensures r.Some? ==> forall i :: 0 <= i < |schema| ==> r.value[i] == f.cells[schema[i]]
  {
    if forall c :: c in schema ==> c in f.cells then
      Some(seq(|schema|, i requires 0 <= i < |schema| => f.cells[schema[i]]))
    else
      None
  }

  /**
   * The feature row the model expects, column by column: one value per
   * schema column, in schema order, each as the form says.
   */
  function FeatureRow(form: Form, schema: seq<string>): (row: seq<Cell>)
    ensures |row| == |schema|
  {
    seq(|schema|, i requires 0 <= i < |schema| => ColumnValue(form, schema[i]))
  }

  /**
   * After the fill, each schema column holds what the form says it holds:
   * a value from the initial table, or the 0 the loop wrote.
   */
  lemma FilledCellsAgree(form: Form, init: Frame, filled: Frame, schema: seq<string>)
    requires init == InitialFrame(form)
    requires forall c :: c in filled.cells <==> c in init.cells || c in schema
    requires forall c :: c in init.cells ==> filled.cells[c] == init.cells[c]
    requires forall c :: c in filled.cells && c !in init.cells ==> filled.cells[c] == Int(0)
    ensures forall c :: c in schema ==> c in filled.cells && filled.cells[c] == ColumnValue(form, c)
  {
    forall c | c in schema ensures filled.cells[c] == ColumnValue(form, c) {
      if c !in init.cells {
        assert c !in SelectedColumns(form);
      }
    }
  }

  /**
   * The page's assembly step: build the table from the form, fill in the
   * schema's missing columns, project onto the schema. The projection never
   * fails, and the result is the row the model expects.
   */
  method AssembleRow(form: Form, schema: seq<string>) returns (row: seq<Cell>)
    ensures row == FeatureRow(form, schema)
  {
    var init := InitialFrame(form);
    var filled := FillMissing(init, schema);
    FilledCellsAgree(form, init, filled, schema);
    var projected := Project(filled, schema);
    row := projected.value;
  }

  /** Each numeric column of the schema carries the number typed in the form. */
  lemma NumericInputsCopied(form: Form, schema: seq<string>, i: nat)
    requires i < |schema|
    ensures schema[i] == Population ==> FeatureRow(form, schema)[i] == Int(form.habitantes)
    ensures schema[i] == HeavyMetals ==> FeatureRow(form, schema)[i] == Real(form.metales)
    ensures schema[i] == Contamination ==> FeatureRow(form, schema)[i] == Real(form.indice)
  {
  }

  /** The dummy columns of the three selections, where the schema has them, hold 1. */
  lemma SelectedDummiesSet(form: Form, schema: seq<string>, i: nat)
    requires i < |schema|
    ensures schema[i] == DiagnosisColumn(Label(form.diagnostico)) ==> FeatureRow(form, schema)[i] == Int(1)
    ensures schema[i] == ProvinceColumn(Label(form.provincia)) ==> FeatureRow(form, schema)[i] == Int(1)
    ensures schema[i] == SexColumn(form.sexo) ==> FeatureRow(form, schema)[i] == Int(1)
  {
    SelectedColumnsDistinct(form);
    var cs := SelectedColumns(form);
    assert cs[3] != cs[0] && cs[3] != cs[1] && cs[3] != cs[2];
    assert cs[4] != cs[0] && cs[4] != cs[1] && cs[4] != cs[2];
    assert cs[5] != cs[0] && cs[5] != cs[1] && cs[5] != cs[2];
  }

  /** Every other schema column holds 0. */
  lemma OtherColumnsZero(form: Form, schema: seq<string>, i: nat)
    requires i < |schema|
    ensures schema[i] !in SelectedColumns(form) ==> FeatureRow(form, schema)[i] == Int(0)
  {
  }

  /**
   * A selection whose dummy column the schema lacks leaves no trace in the
   * row: choosing diagnosis `other` instead zeroes the old diagnosis's
   * column and changes nothing else.
   */
  lemma AbsentDiagnosisDropped(form: Form, other: Option<string>, schema: seq<string>)
    requires DiagnosisColumn(Label(other)) !in schema
    ensures var row := FeatureRow(form, schema);
            var row' := FeatureRow(form.(diagnostico := other), schema);
            forall i :: 0 <= i < |schema| ==>
              row'[i] == if schema[i] == DiagnosisColumn(Label(form.diagnostico)) then Int(0) else row[i]
  {
    var form' := form.(diagnostico := other);
    SelectedColumnsDistinct(form);
    var cs, cs' := SelectedColumns(form), SelectedColumns(form');
    forall i | 0 <= i < |schema|
      ensures FeatureRow(form', schema)[i]
              == if schema[i] == cs[3] then Int(0) else FeatureRow(form, schema)[i]
    {
      var c := schema[i];
      assert c != cs'[3];
      if c == cs[3] {
        assert c != cs[0] && c != cs[1] && c != cs[2] && c != cs[4] && c != cs[5];
      } else {
        assert c in cs <==> c in cs';
      }
    }
  }

  /** The six-column schema of a worked case. */
  function ExampleSchema(): seq<string> {
    [Population, HeavyMetals, Contamination,
     DiagnosisColumn("X"), ProvinceColumn("Y"), SexColumn("Hombres")]
  }

  /**
   * A worked case: the schema holds exactly the six columns the form
   * produces, so the row is the form's answers.
   */
  lemma ExampleRow()
    ensures FeatureRow(Form(Some("Y"), Some("X"), "Hombres", 100, 0.5, 2.0), ExampleSchema())
            == [Int(100), Real(0.5), Real(2.0), Int(1), Int(1), Int(1)]
  {
  }

  /** The same case with a diagnosis the schema has no column for: its column drops to 0. */
  lemma ExampleUnknownDiagnosis()
    ensures FeatureRow(Form(Some("Y"), Some("Z"), "Hombres", 100, 0.5, 2.0), ExampleSchema())
            == [Int(100), Real(0.5), Real(2.0), Int(0), Int(1), Int(1)]
  {
    var schema := ExampleSchema();
    var form := Form(Some("Y"), Some("X"), "Hombres", 100, 0.5, 2.0);
    assert DiagnosisColumn("Z") !in schema by {
      assert DiagnosisColumn("Z")[12] == 'Z' && DiagnosisColumn("X")[12] == 'X';
      assert forall i :: 0 <= i < 6 && i != 3 ==> schema[i][0] != 'D';
    }
    ExampleRow();
    AbsentDiagnosisDropped(form, Some("Z"), schema);
  }
}

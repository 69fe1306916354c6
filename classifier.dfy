/** The column classifier, `setup_person_properties_from_csv_fields`: walk the
    table's columns in order, render each as one property of the node-creation
    pattern `(:Person {...})` (float64 columns through `toFloat`), and collect
    the names of the other columns as the categorical ones. */
module ColumnClassifier {
  import opened Sequences
  import opened Text

  /** A column of the loaded table: its header and whether pandas inferred
      dtype float64 for it. Every other dtype (int64 included) is
      categorical. */
  datatype Column = Column(name: string, isFloat64: bool)

  /** The property a column contributes, without its separator. */
  function EntryBody(col: Column): string {
    if col.isFloat64 then "`" + col.name + "` : toFloat(row.`" + col.name + "`)"
    else "`" + col.name + "` : row.`" + col.name + "`"
  }

  /** The separator the loop writes after each property: a comma and a space
      after a float column, a bare comma after any other. */
  function Separator(col: Column): string {
    if col.isFloat64 then ", " else ","
  }

  /** The text one column appends to the pattern. */
  function Entry(col: Column): string {
    EntryBody(col) + Separator(col)
  }

  /** The text of one entry, as the loop spells it out. */
  lemma EntryText(col: Column)
    ensures Entry(col) == if col.isFloat64
      then "`" + col.name + "` : toFloat(row.`" + col.name + "`), "
      else "`" + col.name + "` : row.`" + col.name + "`,"
  {
  }

  /** The properties of all columns, one per column, in column order. */
  function Entries(table: seq<Column>): string {
    FlatMap(Entry, table)
  }

  /** The names of the columns whose dtype is not float64, in column order. */
  function CategoricalColumns(table: seq<Column>): (names: seq<string>)
    ensures |names| <= |table|
  {
    if table == [] then []
    else
      var init, last := table[..|table| - 1], table[|table| - 1];
      if last.isFloat64 then CategoricalColumns(init) else CategoricalColumns(init) + [last.name]
  }

  function NodeOpen(): string {
    "(:Person {"
  }

  /** A node pattern opened by `(:Person {` and closed by `})`. */
  predicate OpensAndCloses(r: string) {
    |r| >= |NodeOpen()| + 2 && r[..|NodeOpen()|] == NodeOpen() && r[|r| - 2..] == "})"
  }

  /** Closing text that starts with `(:Person {` gives such a pattern. */
  lemma CloseAfterOpen(front: string)
    requires NodeOpen() <= front
    ensures OpensAndCloses(front + "})")
  {
    var r := front + "})";
    assert r[..|NodeOpen()|] == front[..|NodeOpen()|];
    EndsWith(front, "})");
  }

  /** The pattern the classifier returns: `strip(",")` applied to the opened
      pattern with every property, then closed. Whatever the columns, the
      strip never reaches into `(:Person {`, so the pattern opens and closes
      as a node pattern. */
  function PersonFragment(table: seq<Column>): (r: string)
    ensures OpensAndCloses(r)
  {
    StripKeepsFront(NodeOpen(), Entries(table), ',');
    CloseAfterOpen(Strip(NodeOpen() + Entries(table), ','));
    Strip(NodeOpen() + Entries(table), ',') + "})"
  }

  /** `setup_person_properties_from_csv_fields`. */
  method SetupPersonPropertiesFromCsvFields(columns: seq<Column>)
    returns (categoricalCols: seq<string>, personProperties: string)
    ensures categoricalCols == CategoricalColumns(columns)
    ensures personProperties == PersonFragment(columns)
  {
    personProperties := NodeOpen();
    categoricalCols := [];
    for i := 0 to |columns|
      invariant personProperties == NodeOpen() + Entries(columns[..i])
      invariant categoricalCols == CategoricalColumns(columns[..i])
    {
      var col := columns[i];
      EntryText(col);
      FlatMapSnoc(Entry, columns, i);
      if col.isFloat64 {
        personProperties := personProperties + ("`" + col.name + "` : toFloat(row.`" + col.name + "`), ");
      } else {
        categoricalCols := categoricalCols + [col.name];
        personProperties := personProperties + ("`" + col.name + "` : row.`" + col.name + "`,");
      }
      AppendAssoc(NodeOpen(), Entries(columns[..i]), Entry(col));
      assert columns[..i + 1][..i] == columns[..i];
    }
    assert columns[..|columns|] == columns;
    personProperties := Strip(personProperties, ',');
    personProperties := personProperties + "})";
  }

  /** The categorical list of two tables side by side is the list of each:
      a filter that keeps order. */
  lemma {:induction false} CategoricalAppend(a: seq<Column>, b: seq<Column>)
    ensures CategoricalColumns(a + b) == CategoricalColumns(a) + CategoricalColumns(b)
    decreases |b|
  {
    if b == [] {
      assert a + b == a;
    } else {
      var init := b[..|b| - 1];
      assert (a + b)[..|a + b| - 1] == a + init && (a + b)[|a + b| - 1] == b[|b| - 1];
      CategoricalAppend(a, init);
    }
  }

  /** A name is listed as categorical exactly when some non-float64 column
      bears it. */
  lemma {:induction false} CategoricalMembership(table: seq<Column>, name: string)
    ensures name in CategoricalColumns(table) <==>
      exists i :: 0 <= i < |table| && table[i].name == name && !table[i].isFloat64
    decreases |table|
  {
    if table != [] {
      var init, last := table[..|table| - 1], table[|table| - 1];
      CategoricalMembership(init, name);
      if name in CategoricalColumns(table) && !(name in CategoricalColumns(init)) {
        assert table[|table| - 1].name == name;
      }
      if exists i :: 0 <= i < |table| && table[i].name == name && !table[i].isFloat64 {
        var i :| 0 <= i < |table| && table[i].name == name && !table[i].isFloat64;
        if i < |init| {
          assert init[i] == table[i];
        }
      }
    }
  }

  /** An entry body ends with a closing parenthesis or backtick, never with a
      separator character. */
  lemma EntryBodyEnd(col: Column)
    ensures var body := EntryBody(col);
      |body| >= 1 && body[|body| - 1] != ',' && body[|body| - 1] != ' '
  {
  }

  /** The shape of the pattern: opened by `(:Person {`, closed by `})`, with
      the entries of all columns in between; `strip(",")` takes off only the
      comma after a last non-float column, and the `, ` after a last float
      column stays. */
  lemma PersonFragmentShape(table: seq<Column>)
    ensures table == [] ==> PersonFragment(table) == NodeOpen() + "})"
    ensures table != [] ==>
      var init, last := table[..|table| - 1], table[|table| - 1];
      PersonFragment(table) ==
        NodeOpen() + Entries(init) + EntryBody(last) + (if last.isFloat64 then ", " else "") + "})"
  {
    if table == [] {
      assert NodeOpen() + Entries(table) == NodeOpen();
      StripKeeps(NodeOpen(), ',');
    } else if table[|table| - 1].isFloat64 {
      FragmentAfterFloat(table);
    } else {
      FragmentAfterText(table);
      var n := |table| - 1;
      var kept := NodeOpen() + Entries(table[..n]) + EntryBody(table[n]);
      assert kept + "" == kept;
    }
  }

  /** A float64 last column keeps its `, ` separator. */
  lemma FragmentAfterFloat(table: seq<Column>)
    requires table != [] && table[|table| - 1].isFloat64
    ensures var n := |table| - 1;
      PersonFragment(table) == NodeOpen() + Entries(table[..n]) + EntryBody(table[n]) + ", " + "})"
  {
    var n := |table| - 1;
    var kept := NodeOpen() + Entries(table[..n]) + EntryBody(table[n]);
    PatternBeforeStrip(table);
    KeptEnds(table[..n], table[n]);
    assert (kept + ", ")[0] == kept[0];
    StripKeeps(kept + ", ", ',');
  }

  /** Any other last column loses its comma to the strip. */
  lemma FragmentAfterText(table: seq<Column>)
    requires table != [] && !table[|table| - 1].isFloat64
    ensures var n := |table| - 1;
      PersonFragment(table) == NodeOpen() + Entries(table[..n]) + EntryBody(table[n]) + "})"
  {
    var n := |table| - 1;
    var kept := NodeOpen() + Entries(table[..n]) + EntryBody(table[n]);
    PatternBeforeStrip(table);
    assert NodeOpen() + Entries(table) == kept + [','];
    KeptEnds(table[..n], table[n]);
    StripDropsLast(kept, ',');
  }

  /** Before stripping, the pattern is everything up to the last property's
      body, then that property's separator. */
  lemma PatternBeforeStrip(table: seq<Column>)
    requires table != []
    ensures var n := |table| - 1;
      NodeOpen() + Entries(table) ==
        NodeOpen() + Entries(table[..n]) + EntryBody(table[n]) + Separator(table[n])
  {
    var n := |table| - 1;
    var front, body, sep := Entries(table[..n]), EntryBody(table[n]), Separator(table[n]);
    FlatMapSnoc(Entry, table, n);
    assert table[..n + 1] == table;
    AppendAssoc(NodeOpen(), front, body + sep);
    AppendAssoc(NodeOpen() + front, body, sep);
  }

  /** The pattern up to a property body opens with `(` and ends with neither
      a comma nor a space. */
  lemma KeptEnds(init: seq<Column>, last: Column)
    ensures var kept := NodeOpen() + Entries(init) + EntryBody(last);
      kept != [] && kept[0] == '(' && kept[|kept| - 1] != ',' && kept[|kept| - 1] != ' '
  {
    var body := EntryBody(last);
    var kept := NodeOpen() + Entries(init) + body;
    EntryBodyEnd(last);
    assert kept[0] == NodeOpen()[0];
    assert kept[|kept| - 1] == body[|body| - 1];
  }

  /** A float64 column (say `Age`) followed by a text column (say `Gender`):
      the first is rendered through `toFloat` with its separator kept, the
      second as a raw field reference whose comma is stripped, and only the
      second is categorical. */
  lemma FloatThenText(age: Column, gender: Column)
    requires age.isFloat64 && !gender.isFloat64
    ensures CategoricalColumns([age, gender]) == [gender.name]
    ensures PersonFragment([age, gender]) == NodeOpen() + Entry(age) + EntryBody(gender) + "})"
  {
    var table := [age, gender];
    assert table[..1] == [age] && [age][..0] == [];
    FragmentAfterText(table);
    FlatMapSingle(Entry, age);
    assert CategoricalColumns([age]) == [];
  }

  /* ---------- A trailing separator after a float64 column ---------- */

  /** As written, a float64 last column leaves its `, ` in place, so the map
      literal ends with a separator before its closing brace. */
  lemma TrailingSeparatorAfterFloat(table: seq<Column>)
    requires table != [] && table[|table| - 1].isFloat64
    ensures var r := PersonFragment(table);
      |r| >= 4 && r[|r| - 4..] == ", })"
  {
    PersonFragmentShape(table);
    var init, last := table[..|table| - 1], table[|table| - 1];
    var r := PersonFragment(table);
    var front := NodeOpen() + Entries(init) + EntryBody(last);
    assert r == front + ", " + "})";
    AppendAssoc(front, ", ", "})");
  }

  /** The smallest such table, one float64 column (say `Age`): its pattern
      keeps the `, ` before the closing brace, so it differs from the
      intended one. */
  lemma SingleFloatColumn(age: Column)
    requires age.isFloat64
    ensures PersonFragment([age]) == NodeOpen() + EntryBody(age) + ", " + "})"
    ensures PersonFragment([age]) != IntendedPersonFragment([age])
  {
    var table := [age];
    FragmentAfterFloat(table);
    assert table[..0] == [];
    assert NodeOpen() + Entries(table[..0]) == NodeOpen();
    var written, intended := PersonFragment(table), IntendedPersonFragment(table);
    assert |written| == |NodeOpen()| + |EntryBody(age)| + 4;
    assert |intended| == |NodeOpen()| + |EntryBody(age)| + 2;
  }

  /** The pattern with no separator after its last property: it opens and
      closes like the written one, and the brace follows a property body,
      never a separator. */
  function IntendedPersonFragment(table: seq<Column>): (r: string)
    ensures OpensAndCloses(r)
    ensures table != [] ==> r[|r| - 3] != ',' && r[|r| - 3] != ' '
  {
    if table == [] then
      CloseAfterOpen(NodeOpen());
      NodeOpen() + "})"
    else
      var last := table[|table| - 1];
      var front := NodeOpen() + Entries(table[..|table| - 1]) + EntryBody(last);
      KeptEnds(table[..|table| - 1], last);
      AppendAssoc(NodeOpen(), Entries(table[..|table| - 1]), EntryBody(last));
      CloseAfterOpen(front);
      assert (front + "})")[|front| - 1] == front[|front| - 1];
      front + "})"
  }

  /** The two agree whenever the last column is not float64 (or there is no
      column): the correction touches only the faulty case. */
  lemma IntendedAgreesUnlessLastIsFloat(table: seq<Column>)
    requires table == [] || !table[|table| - 1].isFloat64
    ensures IntendedPersonFragment(table) == PersonFragment(table)
  {
    if table == [] {
      PersonFragmentShape(table);
    } else {
      FragmentAfterText(table);
    }
  }
}

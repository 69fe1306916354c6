/** The null-imputation query builder,
    `query_to_assign_avgs_to_null_non_category_columns`: join the categorical
    column names into a Cypher list of quoted strings and splice it into the
    fixed query that fills each missing non-categorical property with that
    property's average. */
module NullImputation {
  import opened Wrappers
  import opened Sequences
  import opened Text

  /** `'<name>'`, with the name inserted verbatim. */
  function Quote(name: string): string {
    "'" + name + "'"
  }

  /** The list the joining loop builds: each name quoted, separated by single
      commas, in input order. */
  function QuotedList(cols: seq<string>): (list: string)
    ensures list == [] <==> cols == []
    ensures list != [] ==> |list| >= 2 && list[0] == '\'' && list[|list| - 1] == '\''
  {
    if cols == [] then ""
    else if |cols| == 1 then Quote(cols[0])
    else QuotedList(cols[..|cols| - 1]) + "," + Quote(cols[|cols| - 1])
  }

  /** The query's lines before the filter on categorical keys. */
  const LeadLines: string :=
    "\n        MATCH (p:Person)\n        UNWIND keys(p) AS key\n        WITH p, key\n" +
    "        // filter only numerical values\n        WHERE "

  /** The query's lines after the filter. */
  const TrailLines: string :=
    "\n        WITH key, avg(p[key]) AS averageValue\n" +
    "        MATCH (p1:Person) WHERE p1[key] IS NULL\n        // Fill in missing values\n" +
    "        CALL apoc.create.setProperty(p1, key, averageValue)\n        YIELD node\n" +
    "        RETURN distinct 'done'\n        "

  /** The query text before the list: up to `WHERE NOT key IN [`. */
  function ImputationHead(): string {
    LeadLines + "NOT key IN ["
  }

  /** The query text after the list, from its closing `]`. */
  function ImputationTail(): string {
    "]" + TrailLines
  }

  /** The query the builder returns for the given categorical columns. */
  function ImputationQuery(cols: seq<string>): (q: string)
    ensures |ImputationHead()| + |ImputationTail()| <= |q|
    ensures q[..|ImputationHead()|] == ImputationHead()
    ensures q[|q| - |ImputationTail()|..] == ImputationTail()
    ensures q[|ImputationHead()|..|q| - |ImputationTail()|] == QuotedList(cols)
  {
    Framed(ImputationHead(), QuotedList(cols), ImputationTail());
    ImputationHead() + QuotedList(cols) + ImputationTail()
  }

  /** `query_to_assign_avgs_to_null_non_category_columns`: the loop grows the
      list, putting a comma before each name once the list is non-empty, then
      the list is spliced into the template. */
  method QueryToAssignAvgsToNullNonCategoryColumns(categoricalCols: seq<string>)
    returns (query: string)
    ensures query == ImputationQuery(categoricalCols)
  {
    var categoricalColsList := "";
    for i := 0 to |categoricalCols|
      invariant categoricalColsList == QuotedList(categoricalCols[..i])
      invariant categoricalColsList == [] <==> i == 0
    {
      var quotedCol := Quote(categoricalCols[i]);
      categoricalColsList := categoricalColsList +
        (if categoricalColsList != [] then "," + quotedCol else quotedCol);
      assert categoricalCols[..i + 1][..i] == categoricalCols[..i];
    }
    assert categoricalCols[..|categoricalCols|] == categoricalCols;
    query := ImputationHead() + categoricalColsList + ImputationTail();
  }

  /** Read from the front: the first name quoted, then a comma and the list of
      the others. */
  lemma {:induction false} QuotedListCons(c: string, cs: seq<string>)
    ensures QuotedList([c] + cs) == Quote(c) + (if cs == [] then "" else "," + QuotedList(cs))
    decreases |cs|
  {
    var xs := [c] + cs;
    if |cs| >= 1 {
      var init, last := cs[..|cs| - 1], cs[|cs| - 1];
      assert xs[..|xs| - 1] == [c] + init && xs[|xs| - 1] == last;
      QuotedListCons(c, init);
      var head, tail := Quote(c), Quote(last);
      if init == [] {
        assert cs == [last];
        assert QuotedList(xs) == head + "," + tail;
        AppendAssoc(head, ",", tail);
      } else {
        assert cs[..|cs| - 1] == init;
        var inner := QuotedList(init);
        assert QuotedList(xs) == head + ("," + inner) + "," + tail;
        assert QuotedList(cs) == inner + "," + tail;
        AppendAssoc(head, "," + inner, ",");
        AppendAssoc(head, "," + inner + ",", tail);
        AppendAssoc(",", inner, ",");
        AppendAssoc(",", inner + ",", tail);
      }
    }
  }

  /* ---------- Reading the list back ---------- */

  /** Reads `'a','b',...` back into the names; `None` when the text is not a
      comma-separated run of quoted names. */
  function ReadQuotedItems(s: string): Option<seq<string>>
    decreases |s|
  {
    match DropPrefix(s, "'")
    case None => None
    case Some(afterOpen) =>
      var (name, afterName) := SplitAtChar(afterOpen, '\'');
      if afterName == [] then None
      else if afterName[1..] == [] then Some([name])
      else
        match DropPrefix(afterName[1..], ",")
        case None => None
        case Some(more) =>
          match ReadQuotedItems(more)
          case None => None
          case Some(names) => Some([name] + names)
  }

  /** Reads a Cypher list body of quoted names, possibly empty. */
  function ReadQuotedList(s: string): Option<seq<string>> {
    if s == [] then Some([]) else ReadQuotedItems(s)
  }

  /** The last quoted name of a list reads back alone. */
  lemma ReadLastItem(name: string)
    requires '\'' !in name
    ensures ReadQuotedItems("'" + (name + "'")) == Some([name])
  {
    DropPrefixOf("'", name + "'");
    SplitAtCharOf(name, '\'', "'");
  }

  /** A quoted name followed by a comma reads back ahead of what follows. */
  lemma ReadItemThenMore(name: string, more: string)
    requires '\'' !in name
    ensures ReadQuotedItems("'" + (name + ("'" + ("," + more)))) ==
      match ReadQuotedItems(more)
      case None => None
      case Some(names) => Some([name] + names)
  {
    var closing := "'" + ("," + more);
    DropPrefixOf("'", name + closing);
    SplitAtCharOf(name, '\'', closing);
    assert closing[1..] == "," + more;
    DropPrefixOf(",", more);
  }

  /** Names without quotes read back from their joined list, in order. */
  lemma {:induction false} QuotedListReadBack(cols: seq<string>)
    requires forall i :: 0 <= i < |cols| ==> '\'' !in cols[i]
    ensures ReadQuotedList(QuotedList(cols)) == Some(cols)
    decreases |cols|
  {
    if cols != [] {
      var c, cs := cols[0], cols[1..];
      assert [c] + cs == cols;
      QuotedListCons(c, cs);
      assert QuotedList(cols) != [];
      if cs == [] {
        assert cols == [c];
        assert QuotedList(cols) == "'" + (c + "'");
        ReadLastItem(c);
      } else {
        var more := QuotedList(cs);
        assert QuotedList(cols) == "'" + (c + ("'" + ("," + more)));
        ReadItemThenMore(c, more);
        QuotedListReadBack(cs);
        assert ReadQuotedItems(more) == Some(cs);
      }
    }
  }

  /** The query excludes exactly the given names: when none holds a quote,
      the text between `NOT key IN [` and the closing `]` reads back as the
      names, in order. */
  lemma ExcludedNamesReadBack(cols: seq<string>)
    requires forall i :: 0 <= i < |cols| ==> '\'' !in cols[i]
    ensures var q := ImputationQuery(cols);
      ReadQuotedList(q[|ImputationHead()|..|q| - |ImputationTail()|]) == Some(cols)
  {
    QuotedListReadBack(cols);
  }

  /** No categorical columns: the list is empty and the query filters with
      `NOT key IN []`. */
  lemma EmptyExclusionList()
    ensures QuotedList([]) == ""
    ensures ImputationQuery([]) == LeadLines + "NOT key IN []" + TrailLines
  {
    SpliceEmpty(LeadLines, TrailLines);
  }

  /** Splicing an empty list between the filter's brackets. */
  lemma SpliceEmpty(lead: string, trail: string)
    ensures lead + "NOT key IN [" + "" + ("]" + trail) == lead + "NOT key IN []" + trail
  {
    assert "NOT key IN [" + "]" == "NOT key IN []";
  }
}

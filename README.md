# Query builders of the k-means clustering script

`kmeans_gds.py` loads a CSV of people into Neo4j and clusters them with the
Graph Data Science library. The only logic the script runs itself is three
helpers that build Cypher query text. This project models those three
helpers and proves properties of them in Dafny:

- `query_to_encode_categorical_column` numbers the distinct non-null values
  of one column 1, 2, …, n in order of first occurrence. It then writes a
  `CASE` that maps each value to its code, falls back to `round(n / 2)` and
  stores the result in the property `<col>_Encoded`. It is modelled in
  `encoder.dfy` (module `CategoricalEncoder`).
- `query_to_assign_avgs_to_null_non_category_columns` joins the categorical
  column names into a Cypher list `'a','b',…` and splices it into a fixed
  query that fills missing numeric properties with their average. It is
  modelled in `imputation.dfy` (module `NullImputation`).
- `setup_person_properties_from_csv_fields` walks the table's columns. It
  renders each column as one property of the node pattern `(:Person {…})`,
  with float64 columns going through `toFloat`, and collects every other
  column as categorical. It is modelled in `classifier.dfy` (module
  `ColumnClassifier`).

Each loop of the source is a Dafny `method` with a loop and invariants. The
encoder's enumerating loop (kmeans_gds.py:114-116) is its own method,
`CategoricalEncoder.EnumerateValues`, which
`CategoricalEncoder.QueryToEncodeCategoricalColumn` calls. Each method is proved
equal to a specification function, and the specification functions carry the
properties:

- The encoding map is the column's distinct values, numbered in order.
- The `CASE` branches read back as that map when no value contains `'`.
- The fallback rounds half to even.
- The joined list reads back as the names when no name contains `'`.
- The classifier's list is exactly the non-float64 columns.
- The node pattern has a fixed shape around `strip(",")`.

Supporting modules:

- `wrappers.dfy` holds `Option`.
- `sequences.dfy` holds first-occurrence indexes and a flat map.
- `text.dfy` holds decimal rendering, prefix and character splitting, and
  Python's `rstrip`, `lstrip` and `strip` with one character.
- `pydict.dfy` holds the insertion-ordered Python dict as a sequence of
  items; `Put` is `d[k] = v`.

Cells of a column are `Option<string>`, where NaN is `None` and a value is
its rendered text. A table column is its name plus the flag "pandas inferred
dtype float64".

## Model

| member | source | states |
|---|---|---|
| CategoricalEncoder.DropNa | kmeans_gds.py:115 | `dropna()` keeps exactly the values of the non-null cells, and no more of them than there are cells |
| CategoricalEncoder.Unique | kmeans_gds.py:115 | `unique()` returns each value of its input exactly once, with no duplicates |
| CategoricalEncoder.UniqueFollowsFirstOccurrence | kmeans_gds.py:115 | `unique()` lists values in the order of their first occurrence in the input |
| CategoricalEncoder.DropNaKeepsOrder | kmeans_gds.py:115 | dropping nulls preserves the relative order of first occurrences, in both directions |
| CategoricalEncoder.Enumerated | kmeans_gds.py:114-116 | the dict the loop builds from distinct values has one item per value, and the item at position i has code i + 1 |
| CategoricalEncoder.Encoding | kmeans_gds.py:114-116 | the dict `m` of a column: its codes run 1, 2, ..., n in item order |
| PyDict.Keys | kmeans_gds.py:124 | the keys of the dict in item order, the order `m.items()` walks: one key per item, the i-th key being item i's |
| PyDict.Get | kmeans_gds.py:114-116 | a lookup finds a code exactly when the key is among the dict's keys |
| PyDict.Put | kmeans_gds.py:116 | `m[v] = code` appends a new key at the end or keeps the key order, stores the code, and changes no other key |
| PyDict.GetAt | kmeans_gds.py:116 | in a dict with distinct keys, looking up the key of item i yields item i's code |
| CategoricalEncoder.EnumeratedStep | kmeans_gds.py:115-116 | one round of the enumerating loop, on a value not yet present, appends that value with code index + 1 |
| CategoricalEncoder.EnumerateValues | kmeans_gds.py:114-116 | the first loop builds the dict that gives the i-th distinct value the code i + 1 |
| CategoricalEncoder.EncodingShape | kmeans_gds.py:114-116 | the dict's keys are the column's distinct non-null values in first-occurrence order, and its codes run 1..n |
| CategoricalEncoder.GetEnumerated | kmeans_gds.py:114-116 | in the enumerated dict, a value's code is its position + 1, and a value that is absent has no code |
| CategoricalEncoder.CodeOf | kmeans_gds.py:114-116 | a value has a code if and only if a non-null cell holds it (nulls are never keys), and that code is in 1..n |
| CategoricalEncoder.CodesFollowFirstOccurrence | kmeans_gds.py:114-116 | equal values share a code, different values get different codes, and codes increase with the position of first occurrence |
| CategoricalEncoder.FourCellValues | kmeans_gds.py:115 | cells a, b, a, c keep all four values through `dropna()` |
| CategoricalEncoder.FourCellUnique | kmeans_gds.py:115 | values a, b, a, c (pairwise different) have the distinct values a, b, c in that order |
| CategoricalEncoder.FourCellExample | kmeans_gds.py:114-128 | cells a, b, a, c get codes a→1, b→2, c→3 and the fallback 2 |
| CategoricalEncoder.RoundHalf | kmeans_gds.py:128 | `round(n / 2)` is the integer nearest n/2, a tie goes to the even neighbour, and 0 ≤ result ≤ n |
| CategoricalEncoder.RoundHalfUnique | kmeans_gds.py:128 | exactly one integer satisfies the round-half-to-even condition for n/2 |
| CategoricalEncoder.RoundHalfExamples | kmeans_gds.py:128 | n = 0, 1, 2, 3, 5, 7 give the fallbacks 0, 0, 1, 2, 2, 4 |
| Text.NatToString | kmeans_gds.py:125 | a code renders as a non-empty run of decimal digits with no leading zero |
| Text.DecimalRoundTrip | kmeans_gds.py:125 | the rendered code reads back as the same number |
| CategoricalEncoder.Header | kmeans_gds.py:119-122 | the opening literal: a newline, `MATCH (p:Person)`, and `WITH p, CASE p['<col>']`, with the source's indentation |
| CategoricalEncoder.Branch | kmeans_gds.py:125 | one branch `WHEN '<key>' THEN <code> `, with the key inserted verbatim and the code in decimal |
| CategoricalEncoder.Branches | kmeans_gds.py:124-125 | one WHEN branch per dict item, in dict order, joined with nothing between them |
| CategoricalEncoder.WriteClause | kmeans_gds.py:129 | the write ``SET p.`<col>_Encoded` = encoded`` |
| CategoricalEncoder.Tail | kmeans_gds.py:128-129 | the close ` ELSE <round(n/2)> END as encoded ` followed by the write |
| CategoricalEncoder.QueryToEncodeCategoricalColumn | kmeans_gds.py:112-130 | the method returns the header, then one `WHEN '<k>' THEN <v> ` branch per dict item in dict order (with `max_index` ending at n), then ` ELSE round(n/2) END as encoded SET p.`<col>_Encoded` = encoded` |
| CategoricalEncoder.ReadBranchHead | kmeans_gds.py:125 | reading one branch consumes a non-empty part of the text |
| CategoricalEncoder.ReadOneBranch | kmeans_gds.py:125 | a branch `WHEN '<key>' THEN <digits> ` with a quote-free key reads back as the key and the number |
| CategoricalEncoder.ReadBranch | kmeans_gds.py:125 | a branch for a quote-free item reads back as that item, ahead of whatever follows it |
| CategoricalEncoder.BranchesReadBack | kmeans_gds.py:123-126 | the branches of a dict whose keys hold no quote read back as the dict: one branch per item, in dict order |
| CategoricalEncoder.EncodingQuery | kmeans_gds.py:119-129 | for every column, the query is the header, then the branches of the encoding dict, then the fallback tail, and it ends with the write to `<col>_Encoded` |
| CategoricalEncoder.EncodingQueryReadsBack | kmeans_gds.py:119-129 | when no value holds a quote, the CASE section between the header and the tail reads back as the encoding dict |
| NullImputation.QueryToAssignAvgsToNullNonCategoryColumns | kmeans_gds.py:133-151 | the method returns the template with the names quoted and comma-joined in input order, spliced into `NOT key IN [...]` |
| NullImputation.ImputationHead | kmeans_gds.py:138-143 | the template up to and including `WHERE NOT key IN [`, with the source's line breaks and indentation |
| NullImputation.ImputationTail | kmeans_gds.py:143-150 | the template from the `]` that closes the list to the end, with the source's line breaks and indentation |
| NullImputation.Quote | kmeans_gds.py:136 | a name between two single quotes, inserted verbatim |
| NullImputation.QuotedListCons | kmeans_gds.py:134-137 | read from the front, the list is the first name quoted, then (if more follow) a comma and the list of the rest |
| NullImputation.QuotedList | kmeans_gds.py:134-137 | the list is empty exactly when there are no names, and otherwise starts and ends with a quote, so it has no leading or trailing comma |
| NullImputation.QuotedListReadBack | kmeans_gds.py:134-137 | names without quotes read back from their joined list, in order |
| NullImputation.ImputationQuery | kmeans_gds.py:138-151 | for every list of names, the query is the template head up to `NOT key IN [`, the quoted list, then the rest of the template from `]` |
| NullImputation.ExcludedNamesReadBack | kmeans_gds.py:138-151 | when no name holds a quote, the list between `NOT key IN [` and `]` reads back as the given names, in order |
| NullImputation.EmptyExclusionList | kmeans_gds.py:134-143 | with no categorical columns the list is empty and the query filters on `NOT key IN []` |
| ColumnClassifier.NodeOpen | kmeans_gds.py:155 | the opening text `(:Person {` |
| ColumnClassifier.EntryBody | kmeans_gds.py:158-162 | one property without its separator: `` `<c>` : toFloat(row.`<c>`) `` for a float64 column, `` `<c>` : row.`<c>` `` otherwise |
| ColumnClassifier.Separator | kmeans_gds.py:158-162 | the separator after a property: `, ` for a float64 column, `,` otherwise |
| ColumnClassifier.Entry | kmeans_gds.py:158-162 | the text one column appends: its property followed by its separator |
| ColumnClassifier.Entries | kmeans_gds.py:157-162 | the texts of all columns, in column order, that the column loop appends |
| ColumnClassifier.EntryText | kmeans_gds.py:158-162 | a float64 column contributes `` `c` : toFloat(row.`c`), ``, and any other column contributes `` `c` : row.`c`, `` |
| ColumnClassifier.CategoricalColumns | kmeans_gds.py:156-161 | the categorical list is never longer than the table |
| ColumnClassifier.SetupPersonPropertiesFromCsvFields | kmeans_gds.py:154-165 | the method returns the non-float64 names in column order, and the pattern `strip(",")` makes of the opened pattern with one entry per column in column order, closed by `})` |
| ColumnClassifier.CategoricalAppend | kmeans_gds.py:157-161 | the categorical list of two tables side by side is the two lists concatenated (an order-preserving filter) |
| ColumnClassifier.CategoricalMembership | kmeans_gds.py:157-161 | a name is categorical if and only if some non-float64 column bears it |
| ColumnClassifier.EntryBodyEnd | kmeans_gds.py:159-162 | a property text, without its separator, never ends in a comma or a space |
| Text.TrimRight | kmeans_gds.py:163 | `rstrip(c)` leaves a prefix, removes only copies of c, and leaves no trailing c |
| Text.TrimLeft | kmeans_gds.py:163 | `lstrip(c)` leaves a suffix, removes only copies of c, and leaves no leading c |
| Text.StripSlice | kmeans_gds.py:163 | `strip(c)` leaves a piece of the text and cuts off only copies of c, on both sides |
| Text.Strip | kmeans_gds.py:163 | what `strip(c)` leaves is no longer than the text and neither starts nor ends with c |
| Text.StripKeeps | kmeans_gds.py:163 | `strip(c)` leaves unchanged a text that neither starts nor ends with c |
| Text.StripDropsLast | kmeans_gds.py:163 | `strip(c)` removes exactly one c appended to such a text |
| ColumnClassifier.PersonFragment | kmeans_gds.py:155-164 | for every table, the pattern as written opens with `(:Person {` and closes with `})` |
| ColumnClassifier.PersonFragmentShape | kmeans_gds.py:155-164 | the pattern is `(:Person {`, the entries of all columns but the last, the last property, its `, ` only if it is float64, then `})`; an empty table gives `(:Person {})` |
| ColumnClassifier.FragmentAfterFloat | kmeans_gds.py:159-164 | after a float64 last column, `strip(",")` keeps the `, ` separator |
| ColumnClassifier.FragmentAfterText | kmeans_gds.py:161-164 | after any other last column, `strip(",")` removes exactly its comma |
| ColumnClassifier.FloatThenText | kmeans_gds.py:154-165 | a float64 column followed by a text column: only the text column is categorical, and its comma is the one stripped |
| ColumnClassifier.TrailingSeparatorAfterFloat | kmeans_gds.py:159-164 | as written, a float64 last column makes the pattern end in `, })` |
| ColumnClassifier.SingleFloatColumn | kmeans_gds.py:159-164 | one float64 column yields `` (:Person {`c` : toFloat(row.`c`), }) ``, which differs from the intended pattern |
| ColumnClassifier.IntendedPersonFragment | kmeans_gds.py:155-164 | the intended pattern opens with `(:Person {` and closes with `})`, with no comma or space before the brace when there is a column |
| ColumnClassifier.IntendedAgreesUnlessLastIsFloat | kmeans_gds.py:155-164 | the intended pattern equals the written one whenever the last column is not float64 |

## Left out

- `main` (kmeans_gds.py:6-109) is not modelled. It connects to Neo4j, reads environment variables and the CSV, runs queries, and prints; all of that is I/O and network access.
- The `print(m)` at kmeans_gds.py:117 is output only and is not modelled.
- The meaning of the generated Cypher is not modelled: averaging, `apoc.create.setProperty`, projection, scaling and k-means run in the database. Only the text the helpers produce is modelled.
- pandas is given, not modelled. Each column's dtype is a float64 flag. Cell values are already rendered as text. Two cells count as equal exactly when their rendered texts are equal.
- Values and names are inserted verbatim, as in the source, with no quoting or escaping. The read-back lemmas (`CategoricalEncoder.EncodingQueryReadsBack`, `NullImputation.ExcludedNamesReadBack`) therefore require that no value or name contains `'`.
- `round(max_index / 2)` uses float division. `CategoricalEncoder.RoundHalf` is exact integer arithmetic; this agrees with the source for n below 2^53, where n / 2 is exact as a float.
- The template literals are written with `\n` line breaks. Python's triple-quoted literals read any line ending in the source file as `\n`.

## Findings

| source | as written | input that shows it | evidently intended | confidence | as-written member | corrected member |
|---|---|---|---|---|---|---|
| kmeans_gds.py:159-164 | a float64 column's separator is `, ` (comma then space). `strip(",")` only removes commas at the very end, so when the last column is float64 the pattern closes as `, })`, a map literal with a trailing comma | a table whose only (or last) column, e.g. `Age`, has dtype float64 | the pattern ends with the last property followed directly by `})`, whatever that column's dtype | not executed | ColumnClassifier.SingleFloatColumn | ColumnClassifier.IntendedPersonFragment |

`ColumnClassifier.SetupPersonPropertiesFromCsvFields` keeps the source's
behaviour. `ColumnClassifier.TrailingSeparatorAfterFloat` states that
behaviour for every table whose last column is float64. `ColumnClassifier.IntendedPersonFragment` is the
corrected pattern, and `ColumnClassifier.IntendedAgreesUnlessLastIsFloat`
shows it differs only in the faulty case.

/** The categorical encoding query builder, `query_to_encode_categorical_column`:
    number the distinct non-null values of one column 1, 2, ..., n in order of
    first occurrence, and write a Cypher CASE that maps each value to its code,
    with round(n / 2) as the fallback for nulls and unseen values. */
module CategoricalEncoder {
  import opened Wrappers
  import opened Sequences
  import opened Text
  import opened PyDict

  /* ---------- The column's distinct values ---------- */

  /** pandas' `dropna()` on a column whose cells are rendered text or NaN
      (`None`): the non-null values, in column order. */
  function DropNa(column: seq<Option<string>>): (r: seq<string>)
    ensures |r| <= |column|
    ensures forall v :: v in r <==> Some(v) in column
  {
    if column == [] then []
    else
      var prefix, last := column[..|column| - 1], column[|column| - 1];
      assert column == prefix + [last];
      match last
      case None => DropNa(prefix)
      case Some(v) => DropNa(prefix) + [v]
  }

  /** pandas' `unique()`: each value once, at the place it first occurs. */
  function Unique(s: seq<string>): (r: seq<string>)
    ensures Distinct(r)
    ensures forall v :: v in r <==> v in s
  {
    if s == [] then []
    else
      var u, x := Unique(s[..|s| - 1]), s[|s| - 1];
      assert s == s[..|s| - 1] + [x];
      if x in u then u else u + [x]
  }

  /** `unique()` lists values in the order of their first occurrences. */
  lemma {:induction false} UniqueFollowsFirstOccurrence(s: seq<string>, i: nat, j: nat)
    requires i < j < |Unique(s)|
    ensures FirstIndex(s, Unique(s)[i]) < FirstIndex(s, Unique(s)[j])
  {
    var p, x := s[..|s| - 1], s[|s| - 1];
    assert s == p + [x];
    var u := Unique(p);
    if j < |u| {
      UniqueFollowsFirstOccurrence(p, i, j);
      FirstIndexExtend(p, x, u[i]);
      FirstIndexExtend(p, x, u[j]);
    } else {
      assert Unique(s)[j] == x && x !in p;
      FirstIndexExtend(p, x, u[i]);
      assert FirstIndex(s, x) == |p|;
    }
  }

  /** Dropping nulls does not reorder the first occurrences of the values
      that remain. */
  lemma {:induction false} DropNaKeepsOrder(column: seq<Option<string>>, v: string, w: string)
    requires Some(v) in column && Some(w) in column
    ensures FirstIndex(DropNa(column), v) < FirstIndex(DropNa(column), w)
        <==> FirstIndex(column, Some(v)) < FirstIndex(column, Some(w))
  {
    var p, x := column[..|column| - 1], column[|column| - 1];
    assert column == p + [x];
    var d := DropNa(p);
    if Some(v) in p && Some(w) in p {
      DropNaKeepsOrder(p, v, w);
      FirstIndexExtend(p, x, Some(v));
      FirstIndexExtend(p, x, Some(w));
      if x.Some? {
        FirstIndexExtend(d, x.value, v);
        FirstIndexExtend(d, x.value, w);
      }
    } else if Some(v) in p {
      assert x == Some(w) && w !in d;
      FirstIndexExtend(p, x, Some(v));
      FirstIndexExtend(d, w, v);
      assert FirstIndex(column, Some(w)) == |p|;
      assert FirstIndex(DropNa(column), w) == |d|;
    } else if Some(w) in p {
      assert x == Some(v) && v !in d;
      FirstIndexExtend(p, x, Some(w));
      FirstIndexExtend(d, v, w);
      assert FirstIndex(column, Some(v)) == |p|;
      assert FirstIndex(DropNa(column), v) == |d|;
    } else {
      assert v == w;
    }
  }

  /* ---------- The encoding map ---------- */

  /** The dict that `for index, v in enumerate(values): m[v] = index + 1`
      builds from distinct `values`: value `i` gets code `i + 1`. */
  function Enumerated(values: seq<string>): (d: Dict)
    ensures |d| == |values|
    ensures forall i :: 0 <= i < |d| ==> d[i].code == i + 1
  {
    seq(|values|, i requires 0 <= i < |values| => Item(values[i], i + 1))
  }

  /** One more round of the enumerating loop appends the next value, as it
      is not yet a key. */
  lemma EnumeratedStep(values: seq<string>, index: nat)
    requires Distinct(values) && index < |values|
    ensures Put(Enumerated(values[..index]), values[index], index + 1)
         == Enumerated(values[..index + 1])
  {
    var prefix, x := values[..index], values[index];
    var m := Enumerated(prefix);
    assert Keys(m) == prefix;
    assert x !in prefix;
    var next := Enumerated(values[..index + 1]);
    assert |next| == |m| + 1;
    assert m + [Item(x, index + 1)] == next;
  }

  /** The encoding map of a column: its distinct non-null values, numbered
      from 1 in order of first occurrence. */
  function Encoding(column: seq<Option<string>>): (m: Dict)
    ensures forall i :: 0 <= i < |m| ==> m[i].code == i + 1
  {
    Enumerated(Unique(DropNa(column)))
  }

  /** The map's keys are the column's distinct non-null values in
      first-occurrence order, and its codes run 1, 2, ..., n. */
  lemma EncodingShape(column: seq<Option<string>>)
    ensures var m := Encoding(column);
      Keys(m) == Unique(DropNa(column)) && Distinct(Keys(m)) &&
      forall i :: 0 <= i < |m| ==> m[i].code == i + 1
  {
    var m := Encoding(column);
    assert Keys(m) == Unique(DropNa(column));
  }

  /** The keys of the enumerated dict are the values, in order. */
  lemma KeysEnumerated(values: seq<string>)
    ensures Keys(Enumerated(values)) == values
  {
    var ks := Keys(Enumerated(values));
    assert |ks| == |values|;
    assert forall i :: 0 <= i < |ks| ==> ks[i] == values[i];
  }

  /** In the dict enumerated from distinct values, a value's code is one more
      than its position, and a value not among them has none. */
  lemma GetEnumerated(u: seq<string>, v: string)
    requires Distinct(u)
    ensures v in u ==> Get(Enumerated(u), v) == Some(FirstIndex(u, v) + 1)
    ensures v !in u ==> Get(Enumerated(u), v) == None
  {
    var m := Enumerated(u);
    KeysEnumerated(u);
    if v in u {
      var i := FirstIndex(u, v);
      assert m[i] == Item(v, i + 1);
      GetAt(m, i);
      assert Get(m, v) == Some(i + 1);
    } else {
      assert v !in Keys(m);
      assert Get(m, v) == None;
    }
  }

  /** A value has a code exactly when it occurs non-null in the column;
      its code is one more than its place among the distinct values, so it
      lies in 1..n. Nulls have no key. */
  lemma CodeOf(column: seq<Option<string>>, v: string)
    ensures var m, u := Encoding(column), Unique(DropNa(column));
      (Get(m, v).Some? <==> Some(v) in column) &&
      (Some(v) in column ==> Get(m, v) == Some(FirstIndex(u, v) + 1) && 1 <= Get(m, v).value <= |m|)
  {
    var u := Unique(DropNa(column));
    GetEnumerated(u, v);
  }

  /** Equal values share a code, different values get different codes, and
      codes increase with the position of each value's first occurrence. */
  lemma CodesFollowFirstOccurrence(column: seq<Option<string>>, v: string, w: string)
    requires Some(v) in column && Some(w) in column
    ensures var m := Encoding(column);
      Get(m, v).Some? && Get(m, w).Some? &&
      (Get(m, v) == Get(m, w) <==> v == w) &&
      (Get(m, v).value < Get(m, w).value <==> FirstIndex(column, Some(v)) < FirstIndex(column, Some(w)))
  {
    var d := DropNa(column);
    var u := Unique(d);
    CodeOf(column, v);
    CodeOf(column, w);
    var i, j := FirstIndex(u, v), FirstIndex(u, w);
    if i < j {
      UniqueFollowsFirstOccurrence(d, i, j);
    } else if j < i {
      UniqueFollowsFirstOccurrence(d, j, i);
    }
    DropNaKeepsOrder(column, v, w);
  }

  /** Cells a, b, a, c (say A, B, A, C) keep those four values through
      `dropna()`. */
  lemma FourCellValues(a: string, b: string, c: string)
    ensures DropNa([Some(a), Some(b), Some(a), Some(c)]) == [a, b, a, c]
  {
    var c1, c2, c3 := [Some(a)], [Some(a), Some(b)], [Some(a), Some(b), Some(a)];
    var column := [Some(a), Some(b), Some(a), Some(c)];
    assert c1[..0] == [] && c2[..1] == c1 && c3[..2] == c2 && column[..3] == c3;
    assert DropNa(c1) == [a];
    assert DropNa(c2) == [a, b];
    assert DropNa(c3) == [a, b, a];
    assert DropNa(column) == [a, b, a] + [c];
  }

  /** Values a, b, a, c, pairwise different, have the distinct values
      a, b, c, in that order. */
  lemma FourCellUnique(a: string, b: string, c: string)
    requires a != b && b != c && a != c
    ensures Unique([a, b, a, c]) == [a, b, c]
  {
    var d := [a, b, a, c];
    var d3, d2, d1 := [a, b, a], [a, b], [a];
    assert d[..3] == d3 && d3[..2] == d2 && d2[..1] == d1 && d1[..0] == [];
    assert Unique(d1) == [a];
    assert Unique(d2) == [a, b];
    assert Unique(d3) == [a, b];
  }

  /** Cells a, b, a, c with three different values (say A, B, A, C): codes
      a 1, b 2, c 3, and a fallback of 2. */
  lemma FourCellExample(a: string, b: string, c: string)
    requires a != b && b != c && a != c
    ensures var m := Encoding([Some(a), Some(b), Some(a), Some(c)]);
      m == [Item(a, 1), Item(b, 2), Item(c, 3)] && RoundHalf(|m|) == 2
  {
    FourCellValues(a, b, c);
    FourCellUnique(a, b, c);
    var m := Enumerated([a, b, c]);
    assert |m| == 3 && m[0] == Item(a, 1) && m[1] == Item(b, 2) && m[2] == Item(c, 3);
  }

  /* ---------- The query text ---------- */

  /** The query's opening, up to `CASE p['<col>']`. */
  function Header(col: string): string {
    "\n                MATCH (p:Person)\n                WITH p, CASE p['" + col + "']\n        "
  }

  /** One `WHEN '<value>' THEN <code> ` branch. */
  function Branch(item: Item): string {
    "WHEN '" + item.key + "' THEN " + NatToString(item.code) + " "
  }

  /** The branches of a dict, one per item, in iteration order. */
  function Branches(m: Dict): string {
    FlatMap(Branch, m)
  }

  /** `r` is `n / 2` rounded to the nearest integer, a tie going to the even
      neighbour. */
  ghost predicate IsRoundHalfEven(n: int, r: int) {
    -1 <= 2 * r - n <= 1 && (2 * r != n ==> r % 2 == 0)
  }

  /** Python 3's `round(n / 2)` for a non-negative int `n`, in exact integer
      arithmetic. */
  function RoundHalf(n: nat): (r: nat)
    ensures IsRoundHalfEven(n, r)
    ensures r <= n
  {
    if n % 2 == 0 then n / 2
    else if (n / 2) % 2 == 0 then n / 2
    else n / 2 + 1
  }

  /** Nearest-with-ties-to-even picks exactly one integer. */
  lemma RoundHalfUnique(n: nat, r: int)
    requires IsRoundHalfEven(n, r)
    ensures r == RoundHalf(n)
  {
  }

  /** Sample fallbacks: round(n / 2) for n = 0, 1, 2, 3, 5, 7. */
  lemma RoundHalfExamples()
    ensures RoundHalf(0) == 0 && RoundHalf(1) == 0 && RoundHalf(2) == 1
    ensures RoundHalf(3) == 2 && RoundHalf(5) == 2 && RoundHalf(7) == 4
  {
  }

  /** The clause that stores the code in property `<col>_Encoded`. */
  function WriteClause(col: string): string {
    "SET p.`" + col + "_Encoded` = encoded"
  }

  /** The query's close: the fallback code and the property write. */
  function Tail(col: string, maxIndex: nat): string {
    " ELSE " + NatToString(RoundHalf(maxIndex)) + " END as encoded " + WriteClause(col)
  }

  /** The query the encoder returns for column `col` with cells `column`:
      the header, the branches of the encoding map and the tail, which closes
      with the write to `<col>_Encoded`, for every column. */
  function EncodingQuery(col: string, column: seq<Option<string>>): (q: string)
    ensures var h, t := |Header(col)|, |Tail(col, |Encoding(column)|)|;
      h + t <= |q| && q[..h] == Header(col) && q[|q| - t..] == Tail(col, |Encoding(column)|) &&
      q[h..|q| - t] == Branches(Encoding(column))
    ensures |WriteClause(col)| <= |q| && q[|q| - |WriteClause(col)|..] == WriteClause(col)
  {
    var m := Encoding(column);
    var header, branches, tail := Header(col), Branches(m), Tail(col, |m|);
    var front := " ELSE " + NatToString(RoundHalf(|m|)) + " END as encoded ";
    Framed(header, branches, tail);
    AppendAssoc(header + branches, front, WriteClause(col));
    EndsWith(header + branches + front, WriteClause(col));
    header + branches + tail
  }

  /** The first loop of `query_to_encode_categorical_column`: fill the dict
      with `m[v] = index + 1` for each distinct value, in order. */
  method EnumerateValues(values: seq<string>) returns (m: Dict)
    requires Distinct(values)
    ensures m == Enumerated(values)
  {
    m := [];
    for index := 0 to |values|
      invariant m == Enumerated(values[..index])
    {
      EnumeratedStep(values, index);
      m := Put(m, values[index], index + 1);
    }
    assert values[..|values|] == values;
  }

  /** `query_to_encode_categorical_column`: number the distinct non-null
      values, then append one branch per dict item while tracking the last
      code seen in `maxIndex`, and close with the fallback and the write. */
  method QueryToEncodeCategoricalColumn(col: string, column: seq<Option<string>>)
    returns (cypherQuery: string)
    ensures cypherQuery == EncodingQuery(col, column)
  {
    var m := EnumerateValues(Unique(DropNa(column)));
    cypherQuery := Header(col);
    var maxIndex := 0;
    for i := 0 to |m|
      invariant cypherQuery == Header(col) + Branches(m[..i])
      invariant maxIndex == i
    {
      var item := m[i];
      FlatMapSnoc(Branch, m, i);
      AppendAssoc(Header(col), Branches(m[..i]), Branch(item));
      cypherQuery := cypherQuery + Branch(item);
      maxIndex := item.code;
    }
    assert m[..|m|] == m;
    cypherQuery := cypherQuery + Tail(col, maxIndex);
  }

  /* ---------- Reading the branches back ---------- */

  /** Reads one `WHEN '<value>' THEN <digits> ` branch off the front of
      `s`: the item it stands for and the text after it. */
  function ReadBranchHead(s: string): (r: Option<(Item, string)>)
    ensures r.Some? ==> |r.value.1| < |s|
  {
    match DropPrefix(s, "WHEN '")
    case None => None
    case Some(afterWhen) =>
      var (key, afterKey) := SplitAtChar(afterWhen, '\'');
      match DropPrefix(afterKey, "' THEN ")
      case None => None
      case Some(afterThen) =>
        var (digits, afterDigits) := SplitAtChar(afterThen, ' ');
        if digits == [] || afterDigits == [] || !AllDigits(digits) then None
        else Some((Item(key, DecimalValue(digits)), afterDigits[1..]))
  }

  /** Reads a run of branches back into the items they stand for; `None`
      when the text is not such a run. */
  function ReadBranches(s: string): Option<Dict>
    decreases |s|
  {
    if s == [] then Some([])
    else
      match ReadBranchHead(s)
      case None => None
      case Some((item, rest)) =>
        match ReadBranches(rest)
        case None => None
        case Some(items) => Some([item] + items)
  }

  /** One branch text, given as its parts, reads back as its item. */
  lemma ReadOneBranch(key: string, digits: string, tail: string)
    requires '\'' !in key && |digits| >= 1 && AllDigits(digits)
    ensures ReadBranchHead("WHEN '" + (key + ("' THEN " + (digits + (" " + tail))))) ==
      Some((Item(key, DecimalValue(digits)), tail))
  {
    var spaced := " " + tail;
    var afterThen := digits + spaced;
    var afterKey := "' THEN " + afterThen;
    DropPrefixOf("WHEN '", key + afterKey);
    SplitAtCharOf(key, '\'', afterKey);
    DropPrefixOf("' THEN ", afterThen);
    assert ' ' !in digits;
    SplitAtCharOf(digits, ' ', spaced);
    assert spaced[1..] == tail;
  }

  /** A branch whose value holds no quote reads back as its item. */
  lemma ReadBranch(item: Item, rest: string)
    requires '\'' !in item.key
    ensures ReadBranches(Branch(item) + rest) ==
      match ReadBranches(rest)
      case None => None
      case Some(items) => Some([item] + items)
  {
    var digits := NatToString(item.code);
    assert Branch(item) + rest == "WHEN '" + (item.key + ("' THEN " + (digits + (" " + rest))));
    ReadOneBranch(item.key, digits, rest);
    DecimalRoundTrip(item.code);
    assert Branch(item) + rest != [];
  }

  /** The branches of a dict whose keys hold no quote read back as the dict:
      exactly one branch per item, in order. */
  lemma {:induction false} BranchesReadBack(m: Dict)
    requires forall i :: 0 <= i < |m| ==> '\'' !in m[i].key
    ensures ReadBranches(Branches(m)) == Some(m)
  {
    if m != [] {
      FlatMapAppend(Branch, [m[0]], m[1..]);
      assert [m[0]] + m[1..] == m;
      assert Branches([m[0]]) == Branch(m[0]) by {
        assert [m[0]][..0] == [];
      }
      BranchesReadBack(m[1..]);
      ReadBranch(m[0], Branches(m[1..]));
    }
  }

  /** Every key of the encoding map is the value of some cell. */
  lemma KeyFromColumn(column: seq<Option<string>>, i: nat) returns (j: nat)
    requires i < |Encoding(column)|
    ensures j < |column| && column[j] == Some(Encoding(column)[i].key)
  {
    var u := Unique(DropNa(column));
    var k := Encoding(column)[i].key;
    assert k == u[i];
    j := FirstIndex(column, Some(k));
  }

  /** When no value holds a quote, the CASE section between the header and
      the tail reads back as the encoding map. */
  lemma EncodingQueryReadsBack(col: string, column: seq<Option<string>>)
    requires forall i :: 0 <= i < |column| && column[i].Some? ==> '\'' !in column[i].value
    ensures var q, m := EncodingQuery(col, column), Encoding(column);
      ReadBranches(q[|Header(col)|..|q| - |Tail(col, |m|)|]) == Some(m)
  {
    var m := Encoding(column);
    forall i | 0 <= i < |m| ensures '\'' !in m[i].key {
      var j := KeyFromColumn(column, i);
    }
    BranchesReadBack(m);
  }
}

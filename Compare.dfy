/** The comparison engine of ocr_utils.py: a ✔/✘ verdict for every key of
    the first document (`generate_comparison_results`), the full comparison
    table (`generate_comparison_df`) and the table of mismatches only
    (`generate_mismatch_df`). Tables are sequences of rows; the pandas
    DataFrame around them is not modelled. */
module Compare {
  import opened Text
  import opened Json
  import opened Flatten

  /** The glyphs "✔" (Match) and "✘" (Mismatch). */
  datatype Verdict = Match | Mismatch

  /** A row of the full table: the columns 'Attribute', 'Result with Extra
      Accuracy', 'Result without Extra Accuracy' and 'Comparison'. */
  datatype Row = Row(attribute: string, withExtra: JsonValue, withoutExtra: JsonValue, comparison: Verdict)

  /** A row of the mismatch table: the same columns without 'Comparison'. */
  datatype MismatchRow = MismatchRow(attribute: string, withExtra: JsonValue, withoutExtra: JsonValue)

  /** The placeholder for a missing value. */
  const NotAvailable: JsonValue := Str("N/A")

  /** `flat.get(key, "N/A")`. */
  function Get(flat: map<string, JsonValue>, key: string): JsonValue
  {
    if key in flat then flat[key] else NotAvailable
  }

  /** The match rule: two strings match when they agree after `strip()` and
      `lower()`; any other pair only when equal. */
  predicate Agree(a: JsonValue, b: JsonValue)
  {
    if a.Str? && b.Str? then Normalize(a.s) == Normalize(b.s) else a == b
  }

  function VerdictOf(a: JsonValue, b: JsonValue): Verdict
  {
    if Agree(a, b) then Match else Mismatch
  }

  /** The verdict dictionary for the keys of `order1`, comparing the values
      of `flat1` and `flat2` (or "N/A" where a key is missing). */
  function Verdicts(flat1: map<string, JsonValue>, order1: seq<string>, flat2: map<string, JsonValue>): (results: map<string, Verdict>)
    ensures forall k :: k in results <==> k in order1
    ensures forall k :: k in results ==> results[k] == VerdictOf(Get(flat1, k), Get(flat2, k))
  {
    if order1 == [] then map[]
    else
      var key := order1[|order1| - 1];
      Verdicts(flat1, order1[..|order1| - 1], flat2)[key := VerdictOf(Get(flat1, key), Get(flat2, key))]
  }

  /** `generate_comparison_results(json1, json2)`. */
  method ComparisonResults(json1: JsonValue, json2: JsonValue) returns (results: map<string, Verdict>)
    ensures results == Verdicts(FlatMap(json1), FlatOrder(json1), FlatMap(json2))
  {
    var flat1, order1 := FlattenJson(json1);
    var flat2, order2 := FlattenJson(json2);
    results := map[];
    for i := 0 to |order1|
      invariant results == Verdicts(flat1, order1[..i], flat2)
    {
      var key := order1[i];
      var val1 := if key in flat1 then flat1[key] else NotAvailable;
      var val2 := if key in flat2 then flat2[key] else NotAvailable;
      var matched;
      if val1.Str? && val2.Str? {
        matched := Lower(Strip(val1.s)) == Lower(Strip(val2.s));
      } else {
        matched := val1 == val2;
      }
      assert (if matched then Match else Mismatch) == VerdictOf(Get(flat1, key), Get(flat2, key));
      VerdictsStep(flat1, order1, i, flat2);
      results := results[key := if matched then Match else Mismatch];
    }
    assert order1[..|order1|] == order1;
  }

  /** One more key of the order adds that key's verdict. */
  lemma VerdictsStep(flat1: map<string, JsonValue>, order1: seq<string>, i: nat, flat2: map<string, JsonValue>)
    requires i < |order1|
    ensures Verdicts(flat1, order1[..i + 1], flat2)
            == Verdicts(flat1, order1[..i], flat2)[order1[i] := VerdictOf(Get(flat1, order1[i]), Get(flat2, order1[i]))]
  {
    assert order1[..i + 1][..i] == order1[..i];
  }

  /** The rows of the full table, one per key of `order1`, in that order. */
  function FullRows(order1: seq<string>, flat1: map<string, JsonValue>, flat2: map<string, JsonValue>,
                    results: map<string, Verdict>): seq<Row>
    requires forall k :: k in order1 ==> k in results
  {
    seq(|order1|, i requires 0 <= i < |order1| =>
      Row(order1[i], Get(flat1, order1[i]), Get(flat2, order1[i]), results[order1[i]]))
  }

  /** `generate_comparison_df(json1, json2, comparison_results)`: a key
      missing from `comparison_results` would raise `KeyError`. */
  method ComparisonTable(json1: JsonValue, json2: JsonValue, results: map<string, Verdict>) returns (rows: seq<Row>)
    requires forall k :: k in FlatOrder(json1) ==> k in results
    ensures rows == FullRows(FlatOrder(json1), FlatMap(json1), FlatMap(json2), results)
  {
    var flat1, order1 := FlattenJson(json1);
    var flat2, order2 := FlattenJson(json2);
    rows := [];
    for i := 0 to |order1|
      invariant rows == FullRows(order1[..i], flat1, flat2, results)
    {
      var key := order1[i];
      var val1 := if key in flat1 then flat1[key] else NotAvailable;
      var val2 := if key in flat2 then flat2[key] else NotAvailable;
      rows := rows + [Row(key, val1, val2, results[key])];
    }
    assert order1[..|order1|] == order1;
  }

  /** The rows of the mismatch table: the keys of `order1` whose verdict is
      ✘, in that order. */
  function MismatchRows(order1: seq<string>, flat1: map<string, JsonValue>, flat2: map<string, JsonValue>,
                        results: map<string, Verdict>): seq<MismatchRow>
    requires forall k :: k in order1 ==> k in results
  {
    if order1 == [] then []
    else
      var key := order1[|order1| - 1];
      MismatchRows(order1[..|order1| - 1], flat1, flat2, results)
        + (if results[key] == Mismatch then [MismatchRow(key, Get(flat1, key), Get(flat2, key))] else [])
  }

  /** `generate_mismatch_df(json1, json2, comparison_results)`. */
  method MismatchTable(json1: JsonValue, json2: JsonValue, results: map<string, Verdict>) returns (rows: seq<MismatchRow>)
    requires forall k :: k in FlatOrder(json1) ==> k in results
    ensures rows == MismatchRows(FlatOrder(json1), FlatMap(json1), FlatMap(json2), results)
  {
    var flat1, order1 := FlattenJson(json1);
    var flat2, order2 := FlattenJson(json2);
    rows := [];
    for i := 0 to |order1|
      invariant rows == MismatchRows(order1[..i], flat1, flat2, results)
    {
      var key := order1[i];
      assert order1[..i + 1][..i] == order1[..i];
      if results[key] == Mismatch {
        var val1 := if key in flat1 then flat1[key] else NotAvailable;
        var val2 := if key in flat2 then flat2[key] else NotAvailable;
        rows := rows + [MismatchRow(key, val1, val2)];
      }
    }
    assert order1[..|order1|] == order1;
  }

  // ----- filtering the full table --------------------------------------------

  function OnlyMismatches(rows: seq<Row>): seq<Row>
  {
    if rows == [] then []
    else
      var r := rows[|rows| - 1];
      OnlyMismatches(rows[..|rows| - 1]) + (if r.comparison == Mismatch then [r] else [])
  }

  function OnlyMatches(rows: seq<Row>): seq<Row>
  {
    if rows == [] then []
    else
      var r := rows[|rows| - 1];
      OnlyMatches(rows[..|rows| - 1]) + (if r.comparison == Match then [r] else [])
  }

  /** The full table without its 'Comparison' column. */
  function DropComparison(rows: seq<Row>): seq<MismatchRow>
  {
    seq(|rows|, i requires 0 <= i < |rows| => MismatchRow(rows[i].attribute, rows[i].withExtra, rows[i].withoutExtra))
  }

  /** The mismatch table is exactly the full table's ✘ rows, in the same
      order, without the verdict column. */
  lemma {:induction false} MismatchRowsAreFilteredFullRows(order1: seq<string>, flat1: map<string, JsonValue>,
                                                          flat2: map<string, JsonValue>, results: map<string, Verdict>)
    requires forall k :: k in order1 ==> k in results
    ensures MismatchRows(order1, flat1, flat2, results) == DropComparison(OnlyMismatches(FullRows(order1, flat1, flat2, results)))
  {
    if order1 != [] {
      var n := |order1| - 1;
      var full := FullRows(order1, flat1, flat2, results);
      MismatchRowsAreFilteredFullRows(order1[..n], flat1, flat2, results);
      assert full[..n] == FullRows(order1[..n], flat1, flat2, results);
      var kept := OnlyMismatches(full[..n]);
      var last := if full[n].comparison == Mismatch then [full[n]] else [];
      assert DropComparison(kept + last) == DropComparison(kept) + DropComparison(last);
    }
  }

  /** Every row of the full table is either a ✔ row or a ✘ row. */
  lemma {:induction false} TableCounts(rows: seq<Row>)
    ensures |OnlyMismatches(rows)| + |OnlyMatches(rows)| == |rows|
  {
    if rows != [] {
      TableCounts(rows[..|rows| - 1]);
    }
  }

  // ----- what the verdicts say -------------------------------------------------

  /** The verdict dictionary has exactly the keys of the first document;
      a key that only the second document has never appears. */
  lemma VerdictKeysAreFirstDocument(json1: JsonValue, json2: JsonValue)
    ensures forall k :: k in Verdicts(FlatMap(json1), FlatOrder(json1), FlatMap(json2)) <==> k in FlatMap(json1)
  {
    OrderMatchesMapKeys(json1);
  }

  /** Every row of the full table built from the verdict dictionary shows the
      first document's own value (never "N/A"), the second document's value
      or "N/A", and the verdict of the match rule on the two. */
  lemma FullRowsFaithful(json1: JsonValue, json2: JsonValue)
    ensures forall k :: k in FlatOrder(json1) ==> k in Verdicts(FlatMap(json1), FlatOrder(json1), FlatMap(json2))
    ensures var rows := FullRows(FlatOrder(json1), FlatMap(json1), FlatMap(json2),
                                 Verdicts(FlatMap(json1), FlatOrder(json1), FlatMap(json2)));
            && |rows| == |FlatOrder(json1)|
            && forall i :: 0 <= i < |rows| ==>
                 && rows[i].attribute in FlatMap(json1)
                 && rows[i].withExtra == FlatMap(json1)[rows[i].attribute]
                 && rows[i].withoutExtra == Get(FlatMap(json2), rows[i].attribute)
                 && rows[i].comparison == VerdictOf(rows[i].withExtra, rows[i].withoutExtra)
  {
    OrderMatchesMapKeys(json1);
  }

  /** A key the second document lacks is compared with the string "N/A":
      it matches exactly when the first document's value is a string that
      reads "n/a" after `strip().lower()`. */
  lemma MissingRightComparesWithPlaceholder(json1: JsonValue, json2: JsonValue, k: string)
    requires k in FlatMap(json1) && k !in FlatMap(json2)
    ensures k in Verdicts(FlatMap(json1), FlatOrder(json1), FlatMap(json2))
    ensures Verdicts(FlatMap(json1), FlatOrder(json1), FlatMap(json2))[k] == Match
            <==> FlatMap(json1)[k].Str? && Normalize(FlatMap(json1)[k].s) == "n/a"
  {
    OrderMatchesMapKeys(json1);
    PlaceholderNormalized();
  }

  /** Comparing a document with itself gives ✔ for every key, and an empty
      mismatch table. */
  lemma SelfComparisonAllMatch(v: JsonValue)
    ensures forall k :: k in Verdicts(FlatMap(v), FlatOrder(v), FlatMap(v)) ==>
              Verdicts(FlatMap(v), FlatOrder(v), FlatMap(v))[k] == Match
    ensures MismatchRows(FlatOrder(v), FlatMap(v), FlatMap(v), Verdicts(FlatMap(v), FlatOrder(v), FlatMap(v))) == []
  {
    var results := Verdicts(FlatMap(v), FlatOrder(v), FlatMap(v));
    NoMismatchRows(FlatOrder(v), FlatMap(v), FlatMap(v), results);
  }

  lemma {:induction false} NoMismatchRows(order1: seq<string>, flat1: map<string, JsonValue>,
                                          flat2: map<string, JsonValue>, results: map<string, Verdict>)
    requires forall k :: k in order1 ==> k in results && results[k] == Match
    ensures MismatchRows(order1, flat1, flat2, results) == []
  {
    if order1 != [] {
      NoMismatchRows(order1[..|order1| - 1], flat1, flat2, results);
    }
  }

  lemma PlaceholderNormalized()
    ensures Normalize("N/A") == "n/a"
  {
    assert LeadingSpaces("N/A") == 0;
    assert TrailingSpaces("N/A") == 0;
    assert Strip("N/A") == "N/A";
    assert Lower("N/A") == "n/a";
  }

  /** Letter case and a trailing blank do not change a string's key. */
  lemma CaseAndMarginsIgnored()
    ensures Normalize("Ok") == Normalize("ok ")
  {
    TrailingBlankStripped();
    assert Lower("ok") == "ok";
    assert Strip("Ok") == "Ok" by {
      assert LeadingSpaces("Ok") == 0;
      assert TrailingSpaces("Ok") == 0;
    }
    assert Lower("Ok") == "ok";
  }

  lemma TrailingBlankStripped()
    ensures Strip("ok ") == "ok"
  {
    assert LeadingSpaces("ok ") == 0;
    assert TrailingSpaces("ok ") == 1;
  }

  /** The match rule on the cases the comparison meets: letter case and
      surrounding blanks do not matter between strings, equal numbers match,
      and a numeric string never matches a number. */
  lemma AgreeExamples()
    ensures Agree(Str("Ok"), Str("ok "))
    ensures Agree(Num(1.0), Num(1.0))
    ensures !Agree(Str("10"), Num(10.0))
    ensures !Agree(Num(1.0), NotAvailable)
  {
    CaseAndMarginsIgnored();
  }
}

/**
  The `categoryMismatches` map of the two importers (src/utils/csvParser.ts and
  src/components/ImportExcelButton/ImportExcelButton.tsx): a JavaScript `Map` from a raw
  category text to the numbers of the rows that used it. A `Map` iterates in insertion
  order, so it is modelled as a list of entries with distinct keys.
*/
module Mismatches {
  import opened Strings

  datatype Entry = Entry(category: string, rows: seq<nat>)

  function Keys(ms: seq<Entry>): (ks: seq<string>)
    ensures |ks| == |ms|
    ensures forall i :: 0 <= i < |ms| ==> ks[i] == ms[i].category
  {
    if ms == [] then [] else [ms[0].category] + Keys(ms[1..])
  }

  predicate DistinctKeys(ms: seq<Entry>) {
    forall i, j :: 0 <= i < j < |ms| ==> ms[i].category != ms[j].category
  }

  /** `m.get(category)`, with no entry read as no rows. */
  function RowsOf(ms: seq<Entry>, category: string): (rows: seq<nat>)
    ensures category !in Keys(ms) ==> rows == []
  {
    if ms == [] then []
    else if ms[0].category == category then ms[0].rows
    else RowsOf(ms[1..], category)
  }

  /** `if (!m.has(category)) m.set(category, []); m.get(category)?.push(row)`. */
  function Record(ms: seq<Entry>, category: string, row: nat): (r: seq<Entry>)
  {
    if ms == [] then [Entry(category, [row])]
    else if ms[0].category == category then [Entry(category, ms[0].rows + [row])] + ms[1..]
    else [ms[0]] + Record(ms[1..], category, row)
  }

  /** A new key goes to the end; a known key keeps its place. */
  lemma {:induction false} RecordKeys(ms: seq<Entry>, category: string, row: nat)
    ensures Keys(Record(ms, category, row)) ==
      if category in Keys(ms) then Keys(ms) else Keys(ms) + [category]
  {
    if ms != [] && ms[0].category != category {
      RecordKeys(ms[1..], category, row);
      assert Keys(ms) == [ms[0].category] + Keys(ms[1..]);
    } else if ms != [] {
      assert Keys(Record(ms, category, row))[1..] == Keys(ms)[1..];
    }
  }

  /** The row is pushed onto its own key's list and onto no other. */
  lemma {:induction false} RecordRows(ms: seq<Entry>, category: string, row: nat, k: string)
    requires DistinctKeys(ms)
    ensures RowsOf(Record(ms, category, row), k) ==
      if k == category then RowsOf(ms, k) + [row] else RowsOf(ms, k)
  {
    if ms != [] && ms[0].category != category {
      RecordRows(ms[1..], category, row, k);
    }
  }

  lemma RecordDistinct(ms: seq<Entry>, category: string, row: nat)
    requires DistinctKeys(ms)
    ensures DistinctKeys(Record(ms, category, row))
  {
    var r := Record(ms, category, row);
    RecordKeys(ms, category, row);
    var ks := Keys(r);
    assert forall i :: 0 <= i < |ms| ==> Keys(ms)[i] == ms[i].category;
    forall i, j | 0 <= i < j < |r| ensures r[i].category != r[j].category {
      assert ks[i] == r[i].category && ks[j] == r[j].category;
    }
  }

  /** The map after recording the (category, row) pairs one after the other. */
  function Recorded(pairs: seq<(string, nat)>): (ms: seq<Entry>)
    ensures DistinctKeys(ms)
  {
    if pairs == [] then []
    else
      var prev := Recorded(pairs[..|pairs| - 1]);
      RecordDistinct(prev, pairs[|pairs| - 1].0, pairs[|pairs| - 1].1);
      Record(prev, pairs[|pairs| - 1].0, pairs[|pairs| - 1].1)
  }

  /** The categories of the pairs, in order. */
  function CategoriesOf(pairs: seq<(string, nat)>): (cs: seq<string>)
    ensures |cs| == |pairs|
    ensures forall i :: 0 <= i < |pairs| ==> cs[i] == pairs[i].0
  {
    if pairs == [] then [] else CategoriesOf(pairs[..|pairs| - 1]) + [pairs[|pairs| - 1].0]
  }

  /** The rows paired with `category`, in order. */
  function RowsFor(pairs: seq<(string, nat)>, category: string): seq<nat> {
    if pairs == [] then []
    else
      RowsFor(pairs[..|pairs| - 1], category) +
      (if pairs[|pairs| - 1].0 == category then [pairs[|pairs| - 1].1] else [])
  }

  /** Where `c` first occurs in `cs`. */
  function FirstIndex(cs: seq<string>, c: string): (i: nat)
    requires c in cs
    ensures i < |cs| && cs[i] == c && c !in cs[..i]
  {
    if cs[0] == c then 0
    else
      var k := FirstIndex(cs[1..], c);
      assert cs[..k + 1] == [cs[0]] + cs[1..][..k];
      k + 1
  }

  /** A Map filled from the pairs has one key per distinct category, and its keys are in
      the order in which the categories first occur. */
  lemma {:induction false} RecordedKeys(pairs: seq<(string, nat)>)
    ensures var ks := Keys(Recorded(pairs));
      (forall c :: c in ks <==> c in CategoriesOf(pairs)) &&
      (forall i, j :: 0 <= i < j < |ks| ==>
         FirstIndex(CategoriesOf(pairs), ks[i]) < FirstIndex(CategoriesOf(pairs), ks[j]))
  {
    if pairs != [] {
      var n := |pairs| - 1;
      var init := pairs[..n];
      RecordedKeys(init);
      RecordKeys(Recorded(init), pairs[n].0, pairs[n].1);
      assert CategoriesOf(pairs) == CategoriesOf(init) + [pairs[n].0];
      FirstIndexOfGrown(CategoriesOf(init), pairs[n].0, Keys(Recorded(init)),
                        CategoriesOf(pairs), Keys(Recorded(pairs)));
    }
  }

  /** Under each key a Map filled from the pairs holds exactly that category's rows, in
      order. */
  lemma {:induction false} RecordedRows(pairs: seq<(string, nat)>, category: string)
    ensures RowsOf(Recorded(pairs), category) == RowsFor(pairs, category)
  {
    if pairs != [] {
      var n := |pairs| - 1;
      RecordedRows(pairs[..n], category);
      RecordRows(Recorded(pairs[..n]), pairs[n].0, pairs[n].1, category);
    }
  }

  /** Appending `c` to the categories keeps the first occurrences of the old keys; a
      new key `c` occurs first at the very end. */
  lemma FirstIndexOfGrown(cs: seq<string>, c: string, ks: seq<string>, cs': seq<string>, ks': seq<string>)
    requires forall k :: k in ks <==> k in cs
    requires forall i, j :: 0 <= i < j < |ks| ==> FirstIndex(cs, ks[i]) < FirstIndex(cs, ks[j])
    requires cs' == cs + [c] && ks' == if c in ks then ks else ks + [c]
    ensures forall k :: k in ks' <==> k in cs'
    ensures forall i, j :: 0 <= i < j < |ks'| ==> FirstIndex(cs', ks'[i]) < FirstIndex(cs', ks'[j])
  {
    forall k | k in cs ensures FirstIndex(cs + [c], k) == FirstIndex(cs, k) {
      FirstIndexOfPrefix(cs, [c], k);
    }
    if c !in ks {
      assert c !in cs;
      assert FirstIndex(cs + [c], c) == |cs| by {
        assert (cs + [c])[|cs|] == c;
        FirstIndexAt(cs + [c], c, |cs|);
      }
    }
  }

  lemma FirstIndexAt(cs: seq<string>, c: string, i: nat)
    requires i < |cs| && cs[i] == c && c !in cs[..i]
    ensures FirstIndex(cs, c) == i
  {
  }

  lemma FirstIndexOfPrefix(cs: seq<string>, more: seq<string>, c: string)
    requires c in cs
    ensures FirstIndex(cs + more, c) == FirstIndex(cs, c)
  {
    var f := FirstIndex(cs, c);
    assert (cs + more)[..f] == cs[..f];
    FirstIndexAt(cs + more, c, f);
  }

  /** The decimal row numbers. */
  function RowNumbers(rows: seq<nat>): (r: seq<string>)
    ensures |r| == |rows|
    ensures forall i :: 0 <= i < |rows| ==> r[i] == NatToString(rows[i])
  {
    if rows == [] then [] else [NatToString(rows[0])] + RowNumbers(rows[1..])
  }

  /** `rows.join(', ')`. */
  function RowList(rows: seq<nat>): string {
    Join(RowNumbers(rows), ", ")
  }
}

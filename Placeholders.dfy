/**
 * The driver loops of `replace_placeholders`: every body paragraph, then every
 * paragraph of every cell of every row of every table, gets its cleaned text.
 * A paragraph is its text; rebuilding its runs is "the text becomes the cleaned text".
 */
module Placeholders {
  import opened Cleaner

  type Cell = seq<string>
  type Row = seq<Cell>
  type Table = seq<Row>

  /** Each paragraph cleaned on its own. */
  function CleanEach(ps: seq<string>, mapping: Mapping): (r: seq<string>)
    ensures |r| == |ps|
    ensures forall i :: 0 <= i < |ps| ==> r[i] == CleanText(ps[i], mapping)
  {
    seq(|ps|, i requires 0 <= i < |ps| => CleanText(ps[i], mapping))
  }

  function CleanRow(row: Row, mapping: Mapping): (r: Row)
    ensures |r| == |row|
    ensures forall c :: 0 <= c < |row| ==> r[c] == CleanEach(row[c], mapping)
  {
    seq(|row|, c requires 0 <= c < |row| => CleanEach(row[c], mapping))
  }

  function CleanTable(table: Table, mapping: Mapping): (r: Table)
    ensures |r| == |table|
    ensures forall k :: 0 <= k < |table| ==> r[k] == CleanRow(table[k], mapping)
  {
    seq(|table|, k requires 0 <= k < |table| => CleanRow(table[k], mapping))
  }

  function CleanTables(tables: seq<Table>, mapping: Mapping): (r: seq<Table>)
    ensures |r| == |tables|
    ensures forall t :: 0 <= t < |tables| ==> r[t] == CleanTable(tables[t], mapping)
  {
    seq(|tables|, t requires 0 <= t < |tables| => CleanTable(tables[t], mapping))
  }

  /** Paragraphs are cleaned independently: cleaning distributes over concatenation. */
  lemma CleanEachAppend(ps: seq<string>, qs: seq<string>, mapping: Mapping)
    ensures CleanEach(ps + qs, mapping) == CleanEach(ps, mapping) + CleanEach(qs, mapping)
  {
    var l, r := CleanEach(ps + qs, mapping), CleanEach(ps, mapping) + CleanEach(qs, mapping);
    forall i | 0 <= i < |l| ensures l[i] == r[i] {
      if i < |ps| {
        assert (ps + qs)[i] == ps[i];
      } else {
        assert (ps + qs)[i] == qs[i - |ps|];
      }
    }
  }

  /** `replace_and_clean` applied to each paragraph of a sequence, one after the other. */
  method CleanParagraphs(ps: seq<string>, mapping: Mapping) returns (r: seq<string>)
    ensures r == CleanEach(ps, mapping)
  {
    r := ps;
    var i := 0;
    while i < |r|
      invariant 0 <= i <= |r| == |ps|
      invariant forall j :: 0 <= j < i ==> r[j] == CleanText(ps[j], mapping)
      invariant forall j :: i <= j < |r| ==> r[j] == ps[j]
    {
      var text := ReplaceAndClean(r[i], mapping);
      r := r[i := text];
      i := i + 1;
    }
  }

  /** A document's body paragraphs and its tables, as texts. */
  class Document {
    var body: seq<string>
    var tables: seq<Table>

    constructor (body: seq<string>, tables: seq<Table>)
      ensures this.body == body && this.tables == tables
    {
      this.body := body;
      this.tables := tables;
    }

    /** `replace_placeholders`: only paragraph texts change; counts and order stay. */
    method ReplacePlaceholders(mapping: Mapping)
      modifies this
      ensures body == CleanEach(old(body), mapping)
      ensures tables == CleanTables(old(tables), mapping)
    {
      body := CleanParagraphs(body, mapping);
      var t := 0;
      while t < |tables|
        invariant 0 <= t <= |tables| == |old(tables)|
        invariant body == CleanEach(old(body), mapping)
        invariant forall j :: 0 <= j < t ==> tables[j] == CleanTable(old(tables)[j], mapping)
        invariant forall j :: t <= j < |tables| ==> tables[j] == old(tables)[j]
      {
        CleanTableAt(t, mapping);
        t := t + 1;
      }
    }

    method CleanTableAt(t: nat, mapping: Mapping)
      requires t < |tables|
      modifies this
      ensures body == old(body)
      ensures tables == old(tables)[t := CleanTable(old(tables)[t], mapping)]
    {
      var k := 0;
      while k < |tables[t]|
        invariant body == old(body) && |tables| == |old(tables)|
        invariant tables == old(tables)[t := tables[t]]
        invariant 0 <= k <= |tables[t]| == |old(tables)[t]|
        invariant forall j :: 0 <= j < k ==> tables[t][j] == CleanRow(old(tables)[t][j], mapping)
        invariant forall j :: k <= j < |tables[t]| ==> tables[t][j] == old(tables)[t][j]
      {
        CleanRowAt(t, k, mapping);
        k := k + 1;
      }
      assert tables[t] == CleanTable(old(tables)[t], mapping);
    }

    method CleanRowAt(t: nat, k: nat, mapping: Mapping)
      requires t < |tables| && k < |tables[t]|
      modifies this
      ensures body == old(body)
      ensures tables == old(tables)[t := old(tables)[t][k := CleanRow(old(tables)[t][k], mapping)]]
    {
      var c := 0;
      while c < |tables[t][k]|
        invariant body == old(body) && |tables| == |old(tables)| && |tables[t]| == |old(tables)[t]|
        invariant tables == old(tables)[t := tables[t]]
        invariant tables[t] == old(tables)[t][k := tables[t][k]]
        invariant 0 <= c <= |tables[t][k]| == |old(tables)[t][k]|
        invariant forall j :: 0 <= j < c ==> tables[t][k][j] == CleanEach(old(tables)[t][k][j], mapping)
        invariant forall j :: c <= j < |tables[t][k]| ==> tables[t][k][j] == old(tables)[t][k][j]
      {
        CleanCellAt(t, k, c, mapping);
        c := c + 1;
      }
      assert tables[t][k] == CleanRow(old(tables)[t][k], mapping);
    }

    method CleanCellAt(t: nat, k: nat, c: nat, mapping: Mapping)
      requires t < |tables| && k < |tables[t]| && c < |tables[t][k]|
      modifies this
      ensures body == old(body)
      ensures tables == old(tables)[t := old(tables)[t][k := old(tables)[t][k][c := CleanEach(old(tables)[t][k][c], mapping)]]]
    {
      var cell := CleanParagraphs(tables[t][k][c], mapping);
      tables := tables[t := tables[t][k := tables[t][k][c := cell]]];
    }
  }
}

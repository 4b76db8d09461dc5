/**
 * The Markdown rendering of lineage rows in the `get-sql-definitions`
 * slash command: each row becomes a level-three heading with the table's
 * name followed by its definition in a fenced SQL block, and the blocks
 * are joined with newlines.
 */
module Markdown {
  import opened Strings

  /** A lineage row as the formatter reads it: the table's name and its definition. */
  datatype Row = Row(queryName: string, queryText: string)

  /** Everything from the first occurrence of this marker on is dropped. */
  const InsertMarker: string := "INSERT INTO"

  const FenceOpen: string := "\n\n```sql\n"
  const FenceClose: string := "\n\n```\n\n"
  const BlockSeparator: string := "\n"

  /**
   * The definition as shown: doubled newlines collapsed, cut before the
   * first marker, then trimmed.  It never contains the marker and neither
   * starts nor ends with whitespace.
   */
  function Body(text: string): (r: string)
    ensures !Contains(r, InsertMarker)
    ensures Trimmed(r)
    ensures !Contains(CollapseNewlines(text), InsertMarker) ==> r == Trim(CollapseNewlines(text))
  {
    var kept := PrefixBefore(CollapseNewlines(text), InsertMarker);
    PrefixBeforeHasNoMarker(CollapseNewlines(text), InsertMarker);
    TrimKeepsAbsence(kept, InsertMarker);
    Trim(kept)
  }

  /** The block for one row. */
  function Block(row: Row): string
  {
    "###" + row.queryName + FenceOpen + Body(row.queryText) + FenceClose
  }

  /** `results.map(...)`: one block per row, in row order. */
  function Blocks(rows: seq<Row>): (r: seq<string>)
    ensures |r| == |rows|
    ensures forall i :: 0 <= i < |rows| ==> r[i] == Block(rows[i])
  {
    seq(|rows|, i requires 0 <= i < |rows| => Block(rows[i]))
  }

  /** `newres.join('\n')`: the rendered document; no rows render as the empty text. */
  function FormatRows(rows: seq<Row>): (r: string)
    ensures rows == [] ==> r == ""
  {
    Join(Blocks(rows), BlockSeparator)
  }

  /**
   * The body is fixed by its specification: take the collapsed text up to
   * the first marker (or all of it), and the trimmed slice of that with
   * only whitespace around it is the body.
   */
  lemma BodySpec(text: string, p: string, i: nat, j: nat)
    requires p <= CollapseNewlines(text)
    requires forall k: nat :: k < |p| ==> !OccursAt(CollapseNewlines(text), InsertMarker, k)
    requires p == CollapseNewlines(text) || OccursAt(CollapseNewlines(text), InsertMarker, |p|)
    requires i <= j <= |p| && AllWhitespace(p[..i]) && AllWhitespace(p[j..]) && Trimmed(p[i..j])
    ensures Body(text) == p[i..j]
  {
    PrefixBeforeUnique(CollapseNewlines(text), InsertMarker, p);
    TrimUnique(p, i, j);
  }

  /**
   * The document is the blocks in row order: block `i` sits at its offset,
   * a single newline separates neighbouring blocks, and nothing else is there.
   */
  lemma FormatRowsLayout(rows: seq<Row>)
    ensures rows != [] ==>
      |FormatRows(rows)| == Offset(Blocks(rows), BlockSeparator, |rows|) - |BlockSeparator|
    ensures forall i: nat | i < |rows| :: PartAt(FormatRows(rows), Blocks(rows), BlockSeparator, i)
    ensures forall i: nat | i + 1 < |rows| :: SepAfter(FormatRows(rows), Blocks(rows), BlockSeparator, i)
  {
    JoinLayout(Blocks(rows), BlockSeparator);
  }

  /** A single row renders as its block alone; one more row appends a newline and its block. */
  lemma FormatRowsSnoc(rows: seq<Row>, row: Row)
    ensures FormatRows([row]) == Block(row)
    ensures rows != [] ==> FormatRows(rows + [row]) == FormatRows(rows) + BlockSeparator + Block(row)
  {
    if rows != [] {
      assert Blocks(rows + [row]) == Blocks(rows) + [Block(row)];
      JoinSnoc(Blocks(rows), Block(row), BlockSeparator);
    }
  }

  /**
   * Two doubled newlines after single characters each become one newline,
   * and the text after them, which does not start a longer run, is
   * collapsed on its own.
   */
  lemma CollapseTwoBlankLines(a: char, b: char, x: string)
    requires a != '\n' && b != '\n'
    requires x == [] || x[0] != '\n'
    ensures CollapseNewlines([a] + "\n\n" + [b] + "\n\n" + x) == [a] + "\n" + [b] + "\n" + CollapseNewlines(x)
  {
    var mid := [b] + (Newlines(2) + x);
    assert Newlines(2) == "\n\n" && Newlines(1) == "\n";
    CollapseRun(2, x);
    CollapseCons(b, Newlines(2) + x);
    CollapseRun(2, mid);
    CollapseCons(a, Newlines(2) + mid);
    assert [a] + "\n\n" + [b] + "\n\n" + x == [a] + (Newlines(2) + mid);
  }

  /**
   * The shape of the example `"a\n\nb\n\nINSERT INTO x"`: doubled newlines
   * are collapsed, the insert statement and all after it are dropped, and
   * the trailing newline is trimmed, leaving `"a\nb"`, whatever follows
   * the marker.
   */
  lemma InsertStatementDropped(a: char, b: char, x: string)
    requires !IsWhitespace(a) && !IsWhitespace(b)
    ensures Body([a] + "\n\n" + [b] + "\n\n" + InsertMarker + x) == [a] + "\n" + [b]
  {
    var text := [a] + "\n\n" + [b] + "\n\n" + InsertMarker + x;
    var tail := InsertMarker + x;
    assert text == [a] + "\n\n" + [b] + "\n\n" + tail;
    CollapseTwoBlankLines(a, b, tail);
    CollapseAfterPrefix(InsertMarker, x);
    var c := CollapseNewlines(text);
    var p := [a] + "\n" + [b] + "\n";
    assert c == p + InsertMarker + CollapseNewlines(x);
    assert c[4..15] == InsertMarker;
    forall k: nat | k < |p| ensures !OccursAt(c, InsertMarker, k) {
      assert c[k + 1] == '\n' || c[k] == '\n';
      if k + |InsertMarker| <= |c| {
        assert c[k..k + |InsertMarker|][0] == c[k];
        assert c[k..k + |InsertMarker|][1] == c[k + 1];
      }
    }
    assert p[..0] == [] && p[0..3] == [a] + "\n" + [b] && p[3..] == "\n";
    BodySpec(text, p, 0, 3);
  }

  /**
   * The block for that example: the body sits between the opening fence and
   * FenceClose, which keeps a blank line before the closing backticks.
   */
  lemma InsertStatementDroppedBlock(name: string, a: char, b: char, x: string)
    requires !IsWhitespace(a) && !IsWhitespace(b)
    ensures Block(Row(name, [a] + "\n\n" + [b] + "\n\n" + InsertMarker + x))
         == "###" + name + FenceOpen + ([a] + "\n" + [b]) + FenceClose
  {
    InsertStatementDropped(a, b, x);
  }
}

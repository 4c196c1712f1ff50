/**
 * The row transform of the upload page: each record the CSV parser hands
 * back (`results.data`) becomes an `UploadedData` record whose candidate
 * tags come from the optional "select tags" cell.
 */
module UploadRows {
  import opened Wrappers
  import opened JsString

  /** One parsed CSV row, keyed by the header names `id`, `links`, `prefix`, `select tags`. */
  datatype CsvRow = CsvRow(id: string, links: string, prefix: string, selectTags: Option<string>)

  /** One row of the upload table: its identifier, link, prefix and candidate tags. */
  datatype UploadedData = UploadedData(id: string, link: string, prefix: string, tags: seq<string>)

  /** Every piece trimmed, in order. */
  function TrimEach(pieces: seq<string>): (r: seq<string>)
    ensures |r| == |pieces|
    ensures forall k :: 0 <= k < |r| ==> r[k] == Trim(pieces[k])
  {
    if pieces == [] then [] else [Trim(pieces[0])] + TrimEach(pieces[1..])
  }

  /**
   * The candidate tags of a row. An absent or empty cell (both falsy in
   * JavaScript) gives no tags; otherwise the cell is split on commas and
   * each piece is trimmed. Empty pieces are kept and duplicates are not
   * removed, so there is exactly one tag per comma-separated field.
   */
  function ParseTags(cell: Option<string>): (tags: seq<string>)
    ensures (cell.None? || cell.value == "") <==> tags == []
    ensures cell.Some? && cell.value != "" ==>
              |tags| == multiset(cell.value)[','] + 1
              && forall k :: 0 <= k < |tags| ==> tags[k] == Trim(Split(cell.value, ',')[k])
    ensures forall k :: 0 <= k < |tags| ==> ',' !in tags[k] && IsTrimmed(tags[k])
  {
    match cell
    case None => []
    case Some(s) => if s == "" then [] else TrimEach(Split(s, ','))
  }

  /** `results.data.map(row => ...)`: one record per parsed row, same order, fields copied across. */
  function ParseRows(data: seq<CsvRow>): (parsed: seq<UploadedData>)
    ensures |parsed| == |data|
    ensures forall i :: 0 <= i < |data| ==>
              && parsed[i].id == data[i].id
              && parsed[i].link == data[i].links
              && parsed[i].prefix == data[i].prefix
              && parsed[i].tags == ParseTags(data[i].selectTags)
  {
    seq(|data|, i requires 0 <= i < |data| =>
      UploadedData(data[i].id, data[i].links, data[i].prefix, ParseTags(data[i].selectTags)))
  }

  /** The transform works row by row: parsing a concatenation concatenates the parses. */
  lemma ParseRowsAppend(a: seq<CsvRow>, b: seq<CsvRow>)
    ensures ParseRows(a + b) == ParseRows(a) + ParseRows(b)
  {
  }

  /**
   * When no field of the cell carries surrounding whitespace, joining the
   * tags with commas gives the cell back: nothing is dropped or reordered.
   */
  lemma ParseTagsJoin(s: string)
    requires s != ""
    requires forall k :: 0 <= k < |Split(s, ',')| ==> IsTrimmed(Split(s, ',')[k])
    ensures Join(ParseTags(Some(s)), ',') == s
  {
    var pieces := Split(s, ',');
    forall k | 0 <= k < |pieces| ensures Trim(pieces[k]) == pieces[k] {
      TrimOfTrimmed(pieces[k]);
    }
    assert ParseTags(Some(s)) == pieces;
    JoinSplit(s, ',');
  }

  /** Parsing comma-joined fields that hold no comma trims each field. */
  lemma ParseTagsOfJoin(fields: seq<string>)
    requires fields != [] && Join(fields, ',') != ""
    requires forall k :: 0 <= k < |fields| ==> ',' !in fields[k]
    ensures ParseTags(Some(Join(fields, ','))) == TrimEach(fields)
  {
    SplitJoin(fields, ',');
  }

  /** Tags joined with commas parse back to themselves, provided none has a comma or surrounding whitespace. */
  lemma ParseTagsJoinRoundTrip(tags: seq<string>)
    requires tags != [] && Join(tags, ',') != ""
    requires forall k :: 0 <= k < |tags| ==> ',' !in tags[k] && IsTrimmed(tags[k])
    ensures ParseTags(Some(Join(tags, ','))) == tags
  {
    ParseTagsOfJoin(tags);
    forall k | 0 <= k < |tags| ensures TrimEach(tags)[k] == tags[k] {
      TrimOfTrimmed(tags[k]);
    }
  }

  /** A cell with two commas gives one tag per field. */
  lemma ParseTagsOfThreeFields(x: string, y: string, z: string)
    requires ',' !in x && ',' !in y && ',' !in z
    ensures ParseTags(Some(x + "," + y + "," + z)) == TrimEach([x, y, z])
  {
    JoinThree(x, y, z, ',');
    ParseTagsOfJoin([x, y, z]);
  }

  /** Trimming keeps trimmed fields and strips the padding of a padded one. */
  lemma TrimEachStripsPadding(a: string, b: string, c: string, pad: string)
    requires IsTrimmed(a) && IsTrimmed(b) && IsTrimmed(c)
    requires forall k :: 0 <= k < |pad| ==> IsWhiteSpace(pad[k])
    ensures TrimEach([a, pad + b + pad, c]) == [a, b, c]
  {
    assert [a, pad + b + pad, c][1..] == [pad + b + pad, c];
    assert [pad + b + pad, c][1..] == [c];
    TrimPadded(pad, b, pad);
    TrimOfTrimmed(a);
    TrimOfTrimmed(c);
  }

  /**
   * Whitespace around a field is dropped: a cell such as "a, b ,c" gives
   * the tags "a", "b", "c".
   */
  lemma ParseTagsTrimsFields(a: string, b: string, c: string, pad: string)
    requires ',' !in a && ',' !in b && ',' !in c
    requires IsTrimmed(a) && IsTrimmed(b) && IsTrimmed(c)
    requires forall k :: 0 <= k < |pad| ==> IsWhiteSpace(pad[k])
    ensures ParseTags(Some(a + "," + (pad + b + pad) + "," + c)) == [a, b, c]
  {
    assert ',' !in pad + b + pad by {
      assert forall k :: 0 <= k < |pad| ==> pad[k] != ',';
    }
    ParseTagsOfThreeFields(a, pad + b + pad, c);
    TrimEachStripsPadding(a, b, c, pad);
  }

  /** The cell "a, b ,c" gives the tags "a", "b", "c". */
  lemma ParseTagsSpacedExample()
    ensures ParseTags(Some("a, b ,c")) == ["a", "b", "c"]
  {
    assert "a" + "," + (" " + "b" + " ") + "," + "c" == "a, b ,c";
    ParseTagsTrimsFields("a", "b", "c", " ");
  }

  /** Doubled and trailing commas give empty tags, which are kept. */
  lemma ParseTagsKeepsEmptyPieces()
    ensures ParseTags(Some("a,,b")) == ["a", "", "b"]
  {
    var tags := ["a", "", "b"];
    assert IsTrimmed(tags[0]) && IsTrimmed(tags[1]) && IsTrimmed(tags[2]);
    assert Join(tags, ',') == "a,,b";
    ParseTagsJoinRoundTrip(tags);
  }
}

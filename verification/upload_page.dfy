/**
 * The state of the upload page and its event handlers: the chosen file,
 * the parsed rows, and the map from row id to the tags selected for that
 * row. The handlers change the state in place; what the table offers and
 * shows for a row is derived from it.
 */
module UploadPage {
  import opened Wrappers
  import opened Seqs
  import opened UploadRows
  import opened TagSelection

  /** How the CSV parser finishes: `complete` with the parsed rows, or `error`. */
  datatype ParseOutcome = Complete(data: seq<CsvRow>) | ParseError

  class UploadPageState {
    /** The chosen file, by name; `None` is `null`. */
    var file: Option<string>
    /** The rows shown in the table. */
    var uploadedData: seq<UploadedData>
    /** Row id to the tags selected for that row, in selection order. */
    var selectedTags: map<string, seq<string>>

    /** Every row's selection is free of duplicates. */
    ghost predicate Valid()
      reads this
    {
      forall rowId :: rowId in selectedTags ==> NoDup(selectedTags[rowId])
    }

    /** The page as first rendered: no file, no rows, no selections. */
    constructor ()
      ensures Valid()
      ensures file == None && uploadedData == [] && selectedTags == map[]
    {
      file := None;
      uploadedData := [];
      selectedTags := map[];
    }

    /** `selectedTags[rowId] || []`: a row that was never touched has selected nothing. */
    function SelectedFor(rowId: string): (shown: seq<string>)
      reads this
      ensures rowId in selectedTags ==> shown == selectedTags[rowId]
      ensures rowId !in selectedTags ==> shown == []
      ensures Valid() ==> NoDup(shown)
    {
      if rowId in selectedTags then selectedTags[rowId] else []
    }

    /**
     * `getAvailableTags(row)`: the row's candidates that are not selected
     * for its id, in candidate order.
     */
    function GetAvailableTags(row: UploadedData): (available: seq<string>)
      reads this
      ensures forall t :: t in available <==> t in row.tags && t !in SelectedFor(row.id)
      ensures IsSubsequence(available, row.tags)
      ensures forall t :: multiset(available)[t] == if t in SelectedFor(row.id) then 0 else multiset(row.tags)[t]
    {
      Available(row.tags, SelectedFor(row.id))
    }

    /**
     * `handleFileChange`: remembers the picked file when there is one. The
     * rows and the selections are left as they are.
     */
    method HandleFileChange(picked: Option<string>)
      requires Valid()
      modifies this`file
      ensures Valid()
      ensures file == if picked.Some? then picked else old(file)
    {
      if picked.Some? {
        file := picked;
      }
    }

    /**
     * `handleUpload` together with the parser's callbacks: with a file
     * chosen, a completed parse replaces the rows; a parse error leaves
     * them. The selections are never touched, so a row of the new file
     * whose id was used before starts with the old selection.
     */
    method HandleUpload(outcome: ParseOutcome)
      requires Valid()
      modifies this`uploadedData
      ensures Valid()
      ensures uploadedData == if file.Some? && outcome.Complete? then ParseRows(outcome.data)
                              else old(uploadedData)
    {
      if file.Some? {
        match outcome
        case Complete(data) =>
          uploadedData := ParseRows(data);
        case ParseError =>
      }
    }

    /**
     * `handleTagSelect`: appends the tag to the row's selection unless it is
     * already there; the row's entry is written even then. No other row's
     * entry changes.
     */
    method HandleTagSelect(rowId: string, selectedTag: string)
      requires Valid()
      modifies this`selectedTags
      ensures Valid()
      ensures selectedTags == old(selectedTags)[rowId := AddTag(old(SelectedFor(rowId)), selectedTag)]
      ensures SelectedFor(rowId) == if selectedTag in old(SelectedFor(rowId)) then old(SelectedFor(rowId))
                                    else old(SelectedFor(rowId)) + [selectedTag]
      ensures forall id :: id != rowId ==> SelectedFor(id) == old(SelectedFor(id))
    {
      var updatedTags := SelectedFor(rowId);
      AddTagKeepsNoDup(updatedTags, selectedTag);
      if selectedTag !in updatedTags {
        updatedTags := updatedTags + [selectedTag];
      }
      selectedTags := selectedTags[rowId := updatedTags];
    }

    /**
     * `removeTag`: drops every occurrence of the tag from the row's
     * selection, keeping the order of the rest. The row must already have
     * an entry. No other row's entry changes.
     */
    method RemoveTag(rowId: string, tagToRemove: string)
      requires Valid()
      requires rowId in selectedTags
      modifies this`selectedTags
      ensures Valid()
      ensures selectedTags == old(selectedTags)[rowId := RemoveAll(old(selectedTags[rowId]), tagToRemove)]
      ensures tagToRemove !in SelectedFor(rowId)
      ensures IsSubsequence(SelectedFor(rowId), old(SelectedFor(rowId)))
      ensures forall id :: id != rowId ==> SelectedFor(id) == old(SelectedFor(id))
    {
      RemoveAllKeepsNoDup(selectedTags[rowId], tagToRemove);
      selectedTags := selectedTags[rowId := RemoveAll(selectedTags[rowId], tagToRemove)];
    }

    /**
     * `handleRemoveFile`: forgets the file, the rows and every selection, so
     * every row is offered all of its candidate tags again.
     */
    method HandleRemoveFile()
      modifies this
      ensures Valid()
      ensures file == None && uploadedData == [] && selectedTags == map[]
      ensures forall row :: GetAvailableTags(row) == row.tags
    {
      file := None;
      uploadedData := [];
      selectedTags := map[];
      forall row: UploadedData ensures GetAvailableTags(row) == row.tags {
        AvailableNothingSelected(row.tags);
      }
    }
  }

  /** The cell "red,blue" gives the tags "red" and "blue". */
  lemma RedBlueTags()
    ensures ParseTags(Some("red,blue")) == ["red", "blue"]
  {
    var tags := ["red", "blue"];
    assert JsString.IsTrimmed(tags[0]) && JsString.IsTrimmed(tags[1]);
    assert JsString.Join(tags, ',') == "red,blue";
    ParseTagsJoinRoundTrip(tags);
  }

  /** A one-row file whose row "1" has the tag cell "red,blue" parses into that row with the candidates "red" and "blue". */
  lemma RedBlueUpload(link: string, prefix: string)
    ensures ParseRows([CsvRow("1", link, prefix, Some("red,blue"))])
            == [UploadedData("1", link, prefix, ["red", "blue"])]
  {
    var parsed := ParseRows([CsvRow("1", link, prefix, Some("red,blue"))]);
    assert parsed[0].tags == ParseTags(Some("red,blue"));
    RedBlueTags();
  }

  /** Selecting and removing "red" among the candidates "red", "blue". */
  lemma RedBlueSelection()
    ensures AddTag([], "red") == ["red"] && RemoveAll(["red"], "red") == []
    ensures Available(["red", "blue"], ["red"]) == ["blue"]
    ensures Available(["red", "blue"], []) == ["red", "blue"]
  {
  }

  /**
   * On a page showing row "1" with candidates "red", "blue" and nothing
   * selected: selecting "red" leaves "blue" on offer and shows "red";
   * removing "red" offers both again and shows nothing.
   */
  method SelectThenRemove(page: UploadPageState)
    returns (offeredAfterSelect: seq<string>, shownAfterSelect: seq<string>,
             offeredAfterRemove: seq<string>, shownAfterRemove: seq<string>)
    requires page.Valid()
    requires page.uploadedData == [UploadedData("1", "http://x", "p1", ["red", "blue"])]
    requires page.selectedTags == map[]
    modifies page
    ensures offeredAfterSelect == ["blue"] && shownAfterSelect == ["red"]
    ensures offeredAfterRemove == ["red", "blue"] && shownAfterRemove == []
  {
    var row := page.uploadedData[0];
    RedBlueSelection();
    page.HandleTagSelect(row.id, "red");
    offeredAfterSelect := page.GetAvailableTags(row);
    shownAfterSelect := page.SelectedFor(row.id);
    page.RemoveTag(row.id, "red");
    offeredAfterRemove := page.GetAvailableTags(row);
    shownAfterRemove := page.SelectedFor(row.id);
  }

  /**
   * The whole walkthrough from a fresh page: choose a file, upload the row
   * "1" with tags "red,blue", select "red", remove it again.
   */
  method SelectThenRemoveScenario()
    returns (offeredAfterSelect: seq<string>, shownAfterSelect: seq<string>,
             offeredAfterRemove: seq<string>, shownAfterRemove: seq<string>)
    ensures offeredAfterSelect == ["blue"] && shownAfterSelect == ["red"]
    ensures offeredAfterRemove == ["red", "blue"] && shownAfterRemove == []
  {
    var page := new UploadPageState();
    page.HandleFileChange(Some("rows.csv"));
    page.HandleUpload(Complete([CsvRow("1", "http://x", "p1", Some("red,blue"))]));
    RedBlueUpload("http://x", "p1");
    offeredAfterSelect, shownAfterSelect, offeredAfterRemove, shownAfterRemove := SelectThenRemove(page);
  }

  /**
   * On a page where row "1" has "red" selected, choosing and uploading a
   * file whose row "1" lists "red,blue" keeps that selection: the new row
   * shows "red" and is offered only "blue".
   */
  method UploadKeepsSelection(page: UploadPageState) returns (offered: seq<string>, shown: seq<string>)
    requires page.Valid()
    requires page.selectedTags == map["1" := ["red"]]
    modifies page
    ensures shown == ["red"] && offered == ["blue"]
  {
    page.HandleFileChange(Some("second.csv"));
    page.HandleUpload(Complete([CsvRow("1", "http://y", "p2", Some("red,blue"))]));
    RedBlueUpload("http://y", "p2");
    var row := UploadedData("1", "http://y", "p2", ["red", "blue"]);
    assert page.uploadedData == [row];
    assert page.SelectedFor("1") == ["red"];
    RedBlueSelection();
    offered := page.GetAvailableTags(row);
    shown := page.SelectedFor(row.id);
  }

  /**
   * Choosing and uploading another file does not clear the selections: a
   * row of the new file with a reused id finds its tag already selected,
   * and is not offered it.
   */
  method NewFileKeepsSelectionScenario() returns (offered: seq<string>, shown: seq<string>)
    ensures shown == ["red"] && offered == ["blue"]
  {
    var page := new UploadPageState();
    page.HandleFileChange(Some("first.csv"));
    page.HandleUpload(Complete([CsvRow("1", "http://x", "p1", Some("red"))]));
    page.HandleTagSelect("1", "red");
    RedBlueSelection();
    assert page.selectedTags == map["1" := ["red"]];
    offered, shown := UploadKeepsSelection(page);
  }
}

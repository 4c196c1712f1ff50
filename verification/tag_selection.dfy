/**
 * The per-row tag bookkeeping of the upload page as functions on
 * sequences: what `handleTagSelect` does to a row's selection, what
 * `removeTag` does to it, and what `getAvailableTags` derives from it.
 */
module TagSelection {
  import opened Seqs

  /**
   * `handleTagSelect` on one row's selection: the tag is appended unless
   * `includes` already finds it.
   */
  function AddTag(selected: seq<string>, tag: string): (r: seq<string>)
    ensures tag in r
    ensures forall t :: t in r <==> t in selected || t == tag
    ensures selected <= r && |r| <= |selected| + 1
    ensures tag in selected ==> r == selected
  {
    if tag in selected then selected else selected + [tag]
  }

  /** `removeTag` on one row's selection: `filter` keeps every tag other than `tag`. */
  function RemoveAll(selected: seq<string>, tag: string): (r: seq<string>)
    ensures tag !in r
    ensures forall t :: t in r <==> t in selected && t != tag
    ensures IsSubsequence(r, selected)
    ensures forall t :: t != tag ==> multiset(r)[t] == multiset(selected)[t]
  {
    var keep := (t: string) => t != tag;
    FilterIsSubsequence(selected, keep);
    forall t | t != tag ensures multiset(Filter(selected, keep))[t] == multiset(selected)[t] {
      FilterCount(selected, keep, t);
    }
    Filter(selected, keep)
  }

  /**
   * `getAvailableTags`: the row's candidate tags that are not selected, in
   * candidate order, every copy of a repeated candidate kept.
   */
  function Available(candidates: seq<string>, selected: seq<string>): (r: seq<string>)
    ensures forall t :: t in r <==> t in candidates && t !in selected
    ensures IsSubsequence(r, candidates)
    ensures forall t :: multiset(r)[t] == if t in selected then 0 else multiset(candidates)[t]
  {
    var offered := (t: string) => t !in selected;
    FilterIsSubsequence(candidates, offered);
    forall t ensures multiset(Filter(candidates, offered))[t] == if t in selected then 0 else multiset(candidates)[t] {
      FilterCount(candidates, offered, t);
    }
    Filter(candidates, offered)
  }

  /** Selecting a tag twice selects it once. */
  lemma AddTagIdempotent(selected: seq<string>, tag: string)
    ensures AddTag(AddTag(selected, tag), tag) == AddTag(selected, tag)
  {
  }

  /** Selecting keeps a duplicate-free selection duplicate-free. */
  lemma AddTagKeepsNoDup(selected: seq<string>, tag: string)
    requires NoDup(selected)
    ensures NoDup(AddTag(selected, tag))
  {
  }

  /** Removing keeps a duplicate-free selection duplicate-free. */
  lemma RemoveAllKeepsNoDup(selected: seq<string>, tag: string)
    requires NoDup(selected)
    ensures NoDup(RemoveAll(selected, tag))
  {
    FilterNoDup(selected, (t: string) => t != tag);
  }

  /** Removing a tag that is not selected changes nothing. */
  lemma RemoveAllAbsent(selected: seq<string>, tag: string)
    requires tag !in selected
    ensures RemoveAll(selected, tag) == selected
  {
    FilterKeepsAll(selected, (t: string) => t != tag);
  }

  /** Removing a tag right after selecting it, when it was not selected before, restores the selection. */
  lemma {:induction false} RemoveUndoesAdd(selected: seq<string>, tag: string)
    requires tag !in selected
    ensures RemoveAll(AddTag(selected, tag), tag) == selected
  {
    var keep := (t: string) => t != tag;
    FilterAppend(selected, [tag], keep);
    FilterKeepsAll(selected, keep);
    assert Filter([tag], keep) == [];
  }

  /** Deselecting and then selecting a tag moves it to the end of the selection. */
  lemma AddAfterRemove(selected: seq<string>, tag: string)
    ensures AddTag(RemoveAll(selected, tag), tag) == RemoveAll(selected, tag) + [tag]
  {
  }

  /** Nothing is both offered and selected. */
  lemma AvailableDisjoint(candidates: seq<string>, selected: seq<string>)
    ensures forall t :: t in Available(candidates, selected) ==> t !in selected
  {
  }

  /**
   * Offered and selected tags together make up the candidates, as sets,
   * when everything selected is a candidate.
   */
  lemma AvailableComplement(candidates: seq<string>, selected: seq<string>)
    requires forall t :: t in selected ==> t in candidates
    ensures (set t | t in Available(candidates, selected)) + (set t | t in selected)
            == (set t | t in candidates)
  {
  }

  /** With nothing selected, every candidate is offered, in order. */
  lemma AvailableNothingSelected(candidates: seq<string>)
    ensures Available(candidates, []) == candidates
  {
    FilterKeepsAll(candidates, (t: string) => t !in []);
  }

  /** Deselecting a tag offers it again if it is a candidate, and leaves every other tag's status alone. */
  lemma AvailableAfterRemove(candidates: seq<string>, selected: seq<string>, tag: string)
    ensures forall t :: t in Available(candidates, RemoveAll(selected, tag)) <==>
                          t in Available(candidates, selected) || (t == tag && t in candidates)
  {
  }

  /** Selecting a tag withdraws exactly that tag from the offered ones. */
  lemma {:induction false} AvailableAfterAdd(candidates: seq<string>, selected: seq<string>, tag: string)
    ensures Available(candidates, AddTag(selected, tag)) == RemoveAll(Available(candidates, selected), tag)
  {
    if candidates != [] {
      AvailableAfterAdd(candidates[1..], selected, tag);
    }
  }
}

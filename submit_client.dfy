/** The category picker of the submit form (src/components/submit/SubmitClient.tsx): a
    click on a category adds it to the selection or takes it out. */
module SubmitClient {
  import opened Seqs

  /** The predicate `c => c !== category`. */
  function Other(category: string): (q: string -> bool)
    ensures forall c :: q(c) == (c != category)
  {
    c => c != category
  }

  /** `toggleCategory`: a category that is not selected is appended; one that is selected
      is taken out everywhere it occurs. Either way its membership flips, nothing but it
      is added or dropped, and the other categories keep their order. */
  function ToggleCategory(selected: seq<string>, category: string): (r: seq<string>)
    ensures category in r <==> category !in selected
    ensures category !in selected ==> r == selected + [category]
    ensures category in selected ==> IsSubsequence(r, selected)
    ensures Filter(r, Other(category)) == Filter(selected, Other(category))
  {
    if category in selected then
      var kept := Filter(selected, Other(category));
      FilterKeepsAll(kept, Other(category));
      kept
    else
      FilterAppend(selected, category, Other(category));
      selected + [category]
  }

  /** Toggling a category that was not selected twice gives the selection back. */
  lemma ToggleTwice(selected: seq<string>, category: string)
    requires category !in selected
    ensures ToggleCategory(ToggleCategory(selected, category), category) == selected
  {
    FilterAppend(selected, category, Other(category));
    FilterKeepsAll(selected, Other(category));
  }

  /** A selection without repeats stays without repeats. */
  lemma ToggleKeepsDistinct(selected: seq<string>, category: string)
    requires Distinct(selected)
    ensures Distinct(ToggleCategory(selected, category))
  {
    if category in selected {
      FilterDistinct(selected, Other(category));
    } else {
      var r := selected + [category];
      forall i, j | 0 <= i < j < |r| ensures r[i] != r[j] {
        if j == |selected| {
          assert r[i] == selected[i];
        }
      }
    }
  }
}

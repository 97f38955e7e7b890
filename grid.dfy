/** The projects page: a row of tag chips above the card grid. `GridView` is
    the selected-tag state and `render()` of both scripts; `ChipBar` adds the
    highlight of the selected chip that the newer script keeps. */
module Grid {
  import opened Wrappers
  import opened Strings
  import opened Projects

  /** The chip labels in display order: `['All', ...uniqueTags]`. */
  function ChipLabels(projects: seq<Card>): seq<string> {
    [ALL] + UniqueTags(projects)
  }

  /** Every chip is the no-filter sentinel or a tag some project carries. */
  lemma ChipLabelsUsed(projects: seq<Card>, t: string)
    requires t in ChipLabels(projects)
    ensures t == ALL || TagUsed(projects, t)
  {
    UniqueTagsSpec(projects);
  }

  /** Chip `i` alone is highlighted. */
  ghost predicate OnlyActive(flags: seq<bool>, i: int) {
    forall j :: 0 <= j < |flags| ==> (flags[j] <==> j == i)
  }

  /** Initial highlight as written (site.js line 73): every chip whose label
      is 'All' is highlighted. */
  function InitialActiveAsWritten(labels: seq<string>): seq<bool> {
    seq(|labels|, j requires 0 <= j < |labels| => labels[j] == ALL)
  }

  /** Initial highlight as intended: the leading 'All' chip only. */
  function InitialActive(labels: seq<string>): seq<bool> {
    seq(|labels|, j => j == 0)
  }

  /** While no project carries a tag named 'All', the code as written agrees
      with the intended start state. */
  lemma InitialActiveAsWrittenAgrees(projects: seq<Card>)
    requires !TagUsed(projects, ALL)
    ensures InitialActiveAsWritten(ChipLabels(projects)) == InitialActive(ChipLabels(projects))
  {
    UniqueTagsSpec(projects);
    var labels := ChipLabels(projects);
    forall j | 0 <= j < |labels| ensures (labels[j] == ALL) == (j == 0) {
      if j > 0 {
        assert labels[j] in UniqueTags(projects);
      }
    }
  }

  /** Conversely, once some project carries a tag named 'All', the code as
      written highlights a chip besides the leading one. */
  lemma TagNamedAllHighlightsAnother(projects: seq<Card>)
    requires TagUsed(projects, ALL)
    ensures InitialActiveAsWritten(ChipLabels(projects))[0]
    ensures exists j :: 0 < j < |ChipLabels(projects)| && InitialActiveAsWritten(ChipLabels(projects))[j]
  {
    UniqueTagsSpec(projects);
    var tags := UniqueTags(projects);
    var k :| 0 <= k < |tags| && tags[k] == ALL;
    var labels := ChipLabels(projects);
    assert labels[k + 1] == ALL;
    assert InitialActiveAsWritten(labels)[k + 1];
  }

  /** A project tagged 'All' yields a second 'All' chip, and the code as
      written highlights both. */
  lemma TagNamedAllHighlightsTwoChips()
    ensures var projects := [Card("Demo", None, [ALL], "", "", "", "", false)];
            InitialActiveAsWritten(ChipLabels(projects)) == [true, true]
  {
    var projects := [Card("Demo", None, [ALL], "", "", "", "", false)];
    forall t ensures t in [ALL] <==> TagUsed(projects, t) {
      if TagUsed(projects, t) {
        assert t in projects[0].tags;
      }
      if t in [ALL] {
        assert t in projects[0].tags;
      }
    }
    UniqueTagsCanonical(projects, [ALL]);
  }

  /** The selected tag and `render()`. */
  class GridView {
    const projects: seq<Card>
    const chips: seq<string>
    /** `state.tag` */
    var tag: string

    ghost predicate Valid()
      reads this
    {
      chips == ChipLabels(projects) && tag in chips
    }

    /** `const state = { tag: 'All' }` */
    constructor(projects: seq<Card>)
      ensures this.projects == projects && Valid() && tag == ALL
    {
      this.projects := projects;
      this.chips := ChipLabels(projects);
      tag := ALL;
    }

    /** The cards `render()` puts into the grid. */
    function Visible(): seq<Card>
      reads this
    {
      FilterByTag(projects, tag)
    }

    /** A chip click: `state.tag = t; render();` */
    method Select(t: string)
      requires Valid() && t in chips
      modifies this
      ensures Valid() && tag == t
    {
      tag := t;
    }
  }

  /** The chip row of the newer script, one highlight flag per chip. */
  class ChipBar {
    const view: GridView
    /** `active[j]`: chip `j` has the highlight class. */
    const active: array<bool>
    /** The index of the highlighted chip. */
    ghost var current: nat

    ghost predicate Valid()
      reads this, view, active
    {
      && view.Valid()
      && active.Length == |view.chips|
      && current < active.Length
      && view.chips[current] == view.tag
      && OnlyActive(active[..], current)
    }

    /** Builds the chips for `projects`; the 'All' chip starts highlighted. */
    constructor(projects: seq<Card>)
      ensures Valid() && fresh(view) && fresh(active)
      ensures view.projects == projects && view.tag == ALL
      ensures active[..] == InitialActive(view.chips)
    {
      var v := new GridView(projects);
      view := v;
      active := new bool[|v.chips|](j => j == 0);
      current := 0;
    }

    /** A click on chip `i`: select its tag, clear every highlight, highlight chip `i`. */
    method Click(i: nat)
      requires Valid() && i < active.Length
      modifies this, view, active
      ensures Valid() && current == i
      ensures view.tag == view.chips[i]
      ensures OnlyActive(active[..], i)
      ensures view.Visible() == FilterByTag(view.projects, view.chips[i])
    {
      view.Select(view.chips[i]);
      var j := 0;
      while j < active.Length
        invariant 0 <= j <= active.Length
        invariant forall k :: 0 <= k < j ==> !active[k]
        modifies active
      {
        active[j] := false;
        j := j + 1;
      }
      active[i] := true;
      current := i;
    }
  }
}

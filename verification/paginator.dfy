/** The candidate paginator of src/engine.c (`ibus_m17n_engine_update_lookup_table`):
    m17n hands over its candidates as a list of groups; the group holding the
    selected candidate becomes one IBus lookup-table page, with the cursor on
    the selection and a "( page / total )" auxiliary label. */
module Paginator {
  import opened Common
  import opened Host

  /** Number of candidates in a group (mtext_len or mplist_length). */
  function Len(g: Group): nat
  {
    match g
    case Flat(cs) => |cs|
    case Nested(items) => |items|
  }

  /** Absolute index of the first candidate of group `k`: the lengths of the
      groups before it, summed. */
  function Offset(groups: seq<Group>, k: nat): nat
    requires k <= |groups|
  {
    if k == 0 then 0 else Offset(groups, k - 1) + Len(groups[k - 1])
  }

  function Total(groups: seq<Group>): nat { Offset(groups, |groups|) }

  /** The candidate strings of one group: one per character of a flat group,
      one per element of a nested group. */
  function Candidates(g: Group): (r: seq<string>)
    ensures |r| == Len(g)
    ensures g.Flat? ==> forall j :: 0 <= j < |r| ==> r[j] == [g.chars[j]]
    ensures g.Nested? ==> r == g.items
  {
    match g
    case Flat(cs) => seq(|cs|, j requires 0 <= j < |cs| => [cs[j]])
    case Nested(items) => items
  }

  /** All candidates of the list in global order. */
  function AllCandidates(groups: seq<Group>): seq<string>
  {
    if |groups| == 0 then [] else AllCandidates(groups[..|groups| - 1]) + Candidates(groups[|groups| - 1])
  }

  /** The search loop: `k` is the 0-based group ordinal and `i` the running
      offset. It stops at the first group whose end lies past `index`. */
  function LocateFrom(groups: seq<Group>, index: int, k: nat, i: nat): (r: (nat, nat))
    requires k <= |groups| && i == Offset(groups, k)
    requires i <= index < Total(groups)
    ensures k <= r.0 < |groups|
    ensures r.1 == Offset(groups, r.0)
    ensures r.1 <= index < r.1 + Len(groups[r.0])
    ensures forall j :: k <= j < r.0 ==> Offset(groups, j) + Len(groups[j]) <= index
    decreases |groups| - k
  {
    if i + Len(groups[k]) > index then (k, i)
    else LocateFrom(groups, index, k + 1, i + Len(groups[k]))
  }

  /** The group holding candidate `index`, with its offset: the first group
      whose offset plus length exceeds `index`. */
  function Locate(groups: seq<Group>, index: int): (r: (nat, nat))
    requires 0 <= index < Total(groups)
    ensures r.0 < |groups| && r.1 == Offset(groups, r.0)
    ensures r.1 <= index < r.1 + Len(groups[r.0])
    ensures forall j :: 0 <= j < r.0 ==> Offset(groups, j) + Len(groups[j]) <= index
  {
    LocateFrom(groups, index, 0, 0)
  }

  /** The page shown for a selection. */
  datatype Page = Page(number: nat, table: LookupTable, aux: string)

  /** The label "( %d / %d )" with the page number and the number of groups. */
  function PageLabel(page: nat, total: nat): string
  {
    "( " + NatToString(page) + " / " + NatToString(total) + " )"
  }

  function Paginate(groups: seq<Group>, index: int, orientation: int): (p: Page)
    requires 0 <= index < Total(groups)
    ensures 1 <= p.number <= |groups|
    ensures var g := groups[p.number - 1];
            && p.table.pageSize == Len(g)
            && p.table.candidates == Candidates(g)
            && p.table.cursorPos == index - Offset(groups, p.number - 1)
            && Offset(groups, p.number - 1) <= index < Offset(groups, p.number - 1) + Len(g)
    ensures 0 <= p.table.cursorPos < p.table.pageSize
    ensures p.table.orientation == orientation
    ensures p.aux == PageLabel(p.number, |groups|)
  {
    var (k, i) := Locate(groups, index);
    Page(k + 1, LookupTable(Len(groups[k]), Candidates(groups[k]), index - i, orientation), PageLabel(k + 1, |groups|))
  }

  /** ibus_m17n_engine_update_lookup_table: with a list to show, one page and
      its label; otherwise both the table and the label are hidden. */
  function RefreshCandidates(ctx: ImContext, style: Style): (r: seq<Effect>)
    requires ctx.candidateList.Some? && ctx.candidateShow ==>
               0 <= ctx.candidateIndex < Total(ctx.candidateList.value)
    ensures !(ctx.candidateList.Some? && ctx.candidateShow) ==> r == [HideLookupTable, HideAuxiliaryText]
    ensures ctx.candidateList.Some? && ctx.candidateShow ==>
              |r| == 2 && r[0].UpdateLookupTable? && r[0].visible && r[1].UpdateAuxiliaryText? && r[1].visible
  {
    if ctx.candidateList.Some? && ctx.candidateShow then
      var p := Paginate(ctx.candidateList.value, ctx.candidateIndex, style.orientation);
      [UpdateLookupTable(p.table, true), UpdateAuxiliaryText(p.aux, true)]
    else
      [HideLookupTable, HideAuxiliaryText]
  }

  // ---------------------------------------------------------------------
  // The groups partition the global candidate sequence
  // ---------------------------------------------------------------------

  lemma {:induction false} AllCandidatesLength(groups: seq<Group>, k: nat)
    requires k <= |groups|
    ensures |AllCandidates(groups[..k])| == Offset(groups, k)
    decreases k
  {
    if k > 0 {
      assert groups[..k][..k - 1] == groups[..k - 1];
      AllCandidatesLength(groups, k - 1);
    }
  }

  lemma {:induction false} AllCandidatesPrefix(groups: seq<Group>, k: nat, n: nat)
    requires k <= n <= |groups|
    ensures AllCandidates(groups[..k]) <= AllCandidates(groups[..n])
    decreases n - k
  {
    if k < n {
      AllCandidatesPrefix(groups, k, n - 1);
      assert groups[..n][..n - 1] == groups[..n - 1];
    }
  }

  /** Candidate `j` of group `k` is candidate `Offset(k) + j` of the whole
      list: the offsets partition the global index space in group order. */
  lemma {:induction false} GroupSlot(groups: seq<Group>, k: nat, j: nat)
    requires k < |groups| && j < Len(groups[k])
    ensures Offset(groups, k) + j < |AllCandidates(groups)|
    ensures AllCandidates(groups)[Offset(groups, k) + j] == Candidates(groups[k])[j]
  {
    assert groups[..k + 1][..k] == groups[..k];
    AllCandidatesLength(groups, k);
    AllCandidatesPrefix(groups, k + 1, |groups|);
    assert groups[..|groups|] == groups;
    var pre := AllCandidates(groups[..k + 1]);
    assert pre == AllCandidates(groups[..k]) + Candidates(groups[k]);
    assert pre[Offset(groups, k) + j] == Candidates(groups[k])[j];
  }

  /** The highlighted entry of the page is the selected candidate of the
      whole list. */
  lemma PageShowsSelection(groups: seq<Group>, index: int, orientation: int)
    requires 0 <= index < Total(groups)
    ensures var p := Paginate(groups, index, orientation);
            index < |AllCandidates(groups)| &&
            p.table.candidates[p.table.cursorPos] == AllCandidates(groups)[index]
  {
    var p := Paginate(groups, index, orientation);
    GroupSlot(groups, p.number - 1, p.table.cursorPos);
  }

  /** Two groups, of 3 and 9 characters; selection 7 lies in the second one,
      on its fifth entry. */
  lemma SecondGroupExample()
    ensures var groups := [Flat("abc"), Flat("defghijkl")];
            var p := Paginate(groups, 7, 0);
            p.number == 2 && p.table.cursorPos == 4 && p.table.pageSize == 9
            && p.aux == "( 2 / 2 )"
  {
    var groups := [Flat("abc"), Flat("defghijkl")];
    assert Offset(groups, 1) == 3;
    assert Total(groups) == 12;
    var p := Paginate(groups, 7, 0);
    assert p.number == 2;
    assert NatToString(2) == "2";
  }
}

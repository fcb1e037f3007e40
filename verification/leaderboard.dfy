/** The row selection of `RichValidator.displayEntries`: which entries are rendered, the position
    number each rendered entry gets, and which sub-rows are shown under it. The HTML itself is not
    modelled. */
module Leaderboard {
  import opened Seqs
  import opened Types

  /** One rendered leaderboard line: its position number, the entry, and the sub-rows listed under it. */
  datatype Row = Row(position: nat, entry: Entry, subRows: seq<Entry>)

  /** With the identity-only switch on, entries without an identity are not rendered. */
  predicate Shown(identityOnly: bool, e: Entry)
  {
    !(identityOnly && e.identityStatus == None)
  }

  function ShownWith(identityOnly: bool): Entry -> bool
  {
    (e: Entry) => Shown(identityOnly, e)
  }

  /** The sub-rows listed under an entry: all of them when it has some and is expanded, none otherwise. */
  function VisibleSubs(e: Entry): (r: seq<Entry>)
    ensures |r| > 0 <==> |e.subs| > 0 && e.isExpanded
    ensures r == [] || r == e.subs
  {
    if |e.subs| > 0 && e.isExpanded then e.subs else []
  }

  /** The rows for `entries` when the next position to hand out is `position`: only shown entries,
      numbered consecutively from `position`, each listing its visible sub-rows. */
  function RowsFrom(entries: seq<Entry>, identityOnly: bool, position: nat): (rows: seq<Row>)
    ensures |rows| <= |entries|
    ensures forall i :: 0 <= i < |rows| ==> rows[i].position == position + i
    ensures forall i :: 0 <= i < |rows| ==> Shown(identityOnly, rows[i].entry) && rows[i].subRows == VisibleSubs(rows[i].entry)
  {
    if |entries| == 0 then []
    else if Shown(identityOnly, entries[0]) then
      [Row(position, entries[0], VisibleSubs(entries[0]))] + RowsFrom(entries[1..], identityOnly, position + 1)
    else
      RowsFrom(entries[1..], identityOnly, position)
  }

  /** The rendered entries are exactly the entries that pass the switch, in list order. */
  lemma {:induction false} RowsAreShownEntries(entries: seq<Entry>, identityOnly: bool, position: nat)
    ensures |RowsFrom(entries, identityOnly, position)| == |Filter(entries, ShownWith(identityOnly))|
    ensures forall i :: 0 <= i < |RowsFrom(entries, identityOnly, position)| ==>
      RowsFrom(entries, identityOnly, position)[i].entry == Filter(entries, ShownWith(identityOnly))[i]
  {
    if |entries| > 0 {
      var p := ShownWith(identityOnly);
      if Shown(identityOnly, entries[0]) {
        var tail := RowsFrom(entries[1..], identityOnly, position + 1);
        RowsAreShownEntries(entries[1..], identityOnly, position + 1);
        assert p(entries[0]);
        assert Filter(entries, p) == [entries[0]] + Filter(entries[1..], p);
        assert RowsFrom(entries, identityOnly, position) == [Row(position, entries[0], VisibleSubs(entries[0]))] + tail;
      } else {
        RowsAreShownEntries(entries[1..], identityOnly, position);
        assert !p(entries[0]);
        assert Filter(entries, p) == Filter(entries[1..], p);
      }
    }
  }

  /** `displayEntries`: the rendered rows, numbered from 1. */
  function DisplayEntries(entries: seq<Entry>, identityOnly: bool): (rows: seq<Row>)
    ensures forall i :: 0 <= i < |rows| ==> rows[i].position == i + 1
    ensures identityOnly ==> forall i :: 0 <= i < |rows| ==> rows[i].entry.identityStatus != None
    ensures forall i :: 0 <= i < |rows| ==>
      (|rows[i].subRows| > 0 <==> |rows[i].entry.subs| > 0 && rows[i].entry.isExpanded)
  {
    RowsFrom(entries, identityOnly, 1)
  }

  /** Every entry that passes the switch is rendered, and with the switch off every entry is rendered,
      in list order. */
  lemma DisplayEntriesComplete(entries: seq<Entry>, identityOnly: bool)
    ensures forall i :: 0 <= i < |entries| && Shown(identityOnly, entries[i]) ==>
      exists j :: 0 <= j < |DisplayEntries(entries, identityOnly)| && DisplayEntries(entries, identityOnly)[j].entry == entries[i]
    ensures !identityOnly ==> |DisplayEntries(entries, false)| == |entries|
    ensures !identityOnly ==> forall i :: 0 <= i < |entries| ==> DisplayEntries(entries, false)[i].entry == entries[i]
  {
    var rows := DisplayEntries(entries, identityOnly);
    var shown := Filter(entries, ShownWith(identityOnly));
    RowsAreShownEntries(entries, identityOnly, 1);
    forall i | 0 <= i < |entries| && Shown(identityOnly, entries[i])
      ensures exists j :: 0 <= j < |rows| && rows[j].entry == entries[i]
    {
      assert ShownWith(identityOnly)(entries[i]);
      assert entries[i] in shown;
      var j :| 0 <= j < |shown| && shown[j] == entries[i];
      assert rows[j].entry == entries[i];
    }
    if !identityOnly {
      FilterAll(entries, ShownWith(false));
    }
  }

  /** Right after a reload nothing is unfolded, so no sub-rows are listed. */
  lemma CollapsedShowsNoSubRows(entries: seq<Entry>, identityOnly: bool)
    requires Collapsed(entries)
    ensures forall i :: 0 <= i < |DisplayEntries(entries, identityOnly)| ==> DisplayEntries(entries, identityOnly)[i].subRows == []
  {
    var rows := DisplayEntries(entries, identityOnly);
    RowsAreShownEntries(entries, identityOnly, 1);
    forall i | 0 <= i < |rows| ensures rows[i].subRows == [] {
      assert rows[i].entry in entries;
    }
  }
}

/** The columns of the scoresheet and the cells recorded in them (frontend/reducer.js). */
module Columns {
  import opened Wrappers
  import opened Outs

  /** A column without a team is shared. Its id is parsed for the sub-index only. */
  datatype Column = Column(inning: int, id: ColId, team: Option<Side>)

  /** What counts as recorded data in a cell: an outcome or a pitch. */
  datatype Cell = Cell(outcome: string, pitches: nat)

  predicate Recorded(cell: Cell) {
    cell.outcome != "" || cell.pitches > 0
  }

  predicate Visible(c: Column, team: Side) {
    c.team == None || c.team == Some(team)
  }

  predicate Before(a: Column, b: Column) {
    a.inning < b.inning || (a.inning == b.inning && a.id.sub < b.id.sub)
  }

  /** Adding to a sorted list, behind its equals. */
  function Insert(cols: seq<Column>, c: Column): seq<Column>
    decreases |cols|
  {
    if cols == [] then [c]
    else if Before(c, cols[|cols| - 1]) then Insert(cols[..|cols| - 1], c) + [cols[|cols| - 1]]
    else cols + [c]
  }

  /** The library's stable sort by inning and sub-index. */
  function Sort(cols: seq<Column>): seq<Column>
    decreases |cols|
  {
    if cols == [] then [] else Insert(Sort(cols[..|cols| - 1]), cols[|cols| - 1])
  }

  ghost predicate Sorted(cols: seq<Column>) {
    forall i, j :: 0 <= i < j < |cols| ==> Before(cols[i], cols[j])
  }

  ghost predicate HasInning(cols: seq<Column>, inning: int) {
    exists c :: c in cols && c.inning == inning
  }

  /** The team sees a column of this inning. */
  ghost predicate Seen(cols: seq<Column>, inning: int, team: Side) {
    exists c :: c in cols && c.inning == inning && Visible(c, team)
  }

  /** Columns are in strict order of inning and sub-index, named after their inning, and every inning has a column for
      either team. */
  ghost predicate Layout(cols: seq<Column>) {
    && Sorted(cols)
    && (forall c :: c in cols ==> c.id.inning == c.inning)
    && (forall inning, team: Side :: HasInning(cols, inning) ==> Seen(cols, inning, team))
  }

  ghost predicate ShownTo(cols: seq<Column>, team: Side, id: ColId) {
    exists c :: c in cols && c.id == id && Visible(c, team)
  }

  /** No recorded cell is out of its team's sight. */
  ghost predicate NoOrphans(cols: seq<Column>, events: map<Key, Cell>) {
    forall key :: key in events && Recorded(events[key]) ==> ShownTo(cols, key.team, key.col)
  }

  lemma UniqueIds(cols: seq<Column>, a: Column, b: Column)
    requires Layout(cols) && a in cols && b in cols && a.id == b.id
    ensures a == b
  {
    var i :| 0 <= i < |cols| && cols[i] == a;
    var j :| 0 <= j < |cols| && cols[j] == b;
    assert Before(cols[i], cols[j]) || Before(cols[j], cols[i]) || i == j;
  }

  lemma {:induction false} SortedStays(cols: seq<Column>)
    requires Sorted(cols)
    ensures Sort(cols) == cols
    decreases |cols|
  {
    if cols != [] {
      var init, last := cols[..|cols| - 1], cols[|cols| - 1];
      SortedStays(init);
      assert cols == init + [last];
      assert init != [] ==> !Before(last, init[|init| - 1]);
    }
  }

  ghost predicate Fresh(cols: seq<Column>, c: Column) {
    forall other :: other in cols ==> other.inning != c.inning || other.id.sub != c.id.sub
  }

  /** A fresh column goes in without disturbing the others. */
  lemma {:induction false} InsertKeepsOrder(cols: seq<Column>, c: Column)
    requires Sorted(cols) && Fresh(cols, c)
    ensures Sorted(Insert(cols, c))
    ensures forall x :: x in Insert(cols, c) <==> x in cols || x == c
    decreases |cols|
  {
    if cols != [] && Before(c, cols[|cols| - 1]) {
      var init, last := cols[..|cols| - 1], cols[|cols| - 1];
      assert cols == init + [last];
      InsertKeepsOrder(init, c);
      assert forall x :: x in Insert(init, c) ==> Before(x, last);
    }
  }

  lemma PushAndSort(cols: seq<Column>, c: Column)
    requires Sorted(cols)
    ensures Sort(cols + [c]) == Insert(cols, c)
  {
    assert (cols + [c])[..|cols|] == cols;
    SortedStays(cols);
  }

  /** A fresh, well-named column keeps the layout exactly when it is shared or its inning is already there. */
  lemma InsertKeepsLayoutIff(cols: seq<Column>, c: Column)
    requires Layout(cols) && Fresh(cols, c) && c.id.inning == c.inning
    ensures Layout(Sort(cols + [c])) <==> c.team == None || HasInning(cols, c.inning)
    ensures forall team, id :: ShownTo(cols, team, id) ==> ShownTo(Sort(cols + [c]), team, id)
  {
    var after := Insert(cols, c);
    PushAndSort(cols, c);
    InsertKeepsOrder(cols, c);
    forall inning, team: Side | Seen(cols, inning, team)
      ensures Seen(after, inning, team)
    {
      var d :| d in cols && d.inning == inning && Visible(d, team);
      assert d in after;
    }
    forall team, id | ShownTo(cols, team, id)
      ensures ShownTo(after, team, id)
    {
      var d :| d in cols && d.id == id && Visible(d, team);
      assert d in after;
    }
    assert c in after && HasInning(after, c.inning);
    forall inning | HasInning(after, inning) && inning != c.inning
      ensures HasInning(cols, inning)
    {
      var d :| d in after && d.inning == inning;
      assert d in cols;
    }
    if c.team.Some? && !HasInning(cols, c.inning) {
      var other := if c.team.value.Away? then Home else Away;
      assert !Seen(after, c.inning, other);
    } else if c.team == None {
      assert forall team: Side :: Seen(after, c.inning, team);
    }
  }

  datatype Sheet = Sheet(columns: seq<Column>, events: map<Key, Cell>)

  function MaxInning(cols: seq<Column>): (m: int)
    ensures m >= 0 && forall c :: c in cols ==> c.inning <= m
    ensures m == 0 || HasInning(cols, m)
    decreases |cols|
  {
    if cols == [] then 0
    else
      var m := MaxInning(cols[..|cols| - 1]);
      var last := cols[|cols| - 1];
      assert cols == cols[..|cols| - 1] + [last];
      if last.inning > m then last.inning else m
  }

  function NewInning(cols: seq<Column>): Column {
    Column(MaxInning(cols) + 1, ColId(MaxInning(cols) + 1, 0), None)
  }

  function AddInning(s: Sheet): Sheet {
    s.(columns := s.columns + [NewInning(s.columns)])
  }

  method ApplyAddInning(s: Sheet) returns (after: Sheet)
    ensures after == AddInning(s)
  {
    var maxInning := 0;
    for i := 0 to |s.columns|
      invariant maxInning == MaxInning(s.columns[..i])
    {
      assert s.columns[..i + 1][..i] == s.columns[..i];
      if s.columns[i].inning > maxInning {
        maxInning := s.columns[i].inning;
      }
    }
    assert s.columns[..|s.columns|] == s.columns;
    after := s.(columns := s.columns + [Column(maxInning + 1, ColId(maxInning + 1, 0), None)]);
  }

  /** One past the highest sub-index of the inning; zero when it has no column. */
  function NextSub(cols: seq<Column>, inning: int): (n: nat)
    ensures forall c :: c in cols && c.inning == inning ==> c.id.sub < n
    decreases |cols|
  {
    if cols == [] then 0
    else
      var n := NextSub(cols[..|cols| - 1], inning);
      var last := cols[|cols| - 1];
      assert cols == cols[..|cols| - 1] + [last];
      if last.inning == inning && last.id.sub >= n then last.id.sub + 1 else n
  }

  function NewColumn(cols: seq<Column>, inning: int, team: Option<Side>): Column {
    Column(inning, ColId(inning, NextSub(cols, inning)), team)
  }

  function AddColumn(s: Sheet, inning: int, team: Option<Side>): Sheet {
    s.(columns := Sort(s.columns + [NewColumn(s.columns, inning, team)]))
  }

  method ApplyAddColumn(s: Sheet, inning: int, team: Option<Side>) returns (after: Sheet)
    ensures after == AddColumn(s, inning, team)
  {
    var maxSub: int := -1;
    for i := 0 to |s.columns|
      invariant maxSub + 1 == NextSub(s.columns[..i], inning)
    {
      assert s.columns[..i + 1][..i] == s.columns[..i];
      if s.columns[i].inning == inning && s.columns[i].id.sub > maxSub {
        maxSub := s.columns[i].id.sub;
      }
    }
    assert s.columns[..|s.columns|] == s.columns;
    after := s.(columns := Sort(s.columns + [Column(inning, ColId(inning, maxSub + 1), team)]));
  }

  lemma AddInningKeepsLayout(s: Sheet)
    requires Layout(s.columns)
    ensures Layout(AddInning(s).columns) && AddInning(s).events == s.events
    ensures forall c: Column :: c in AddInning(s).columns && c !in s.columns ==>
              c.inning == MaxInning(s.columns) + 1 && c.id == ColId(c.inning, 0) && c.team == None
    ensures forall team, id :: ShownTo(s.columns, team, id) ==> ShownTo(AddInning(s).columns, team, id)
    ensures forall inning :: HasInning(AddInning(s).columns, inning)
              <==> HasInning(s.columns, inning) || inning == MaxInning(s.columns) + 1
  {
    var c := NewInning(s.columns);
    assert forall other :: other in s.columns ==> Before(other, c);
    assert Insert(s.columns, c) == s.columns + [c];
    assert Fresh(s.columns, c) && Sorted(s.columns);
    hide Layout, ShownTo, HasInning, Sort, Insert;
    PushAndSort(s.columns, c);
    InsertKeepsLayoutIff(s.columns, c);
    forall inning
      ensures HasInning(s.columns + [c], inning) <==> HasInning(s.columns, inning) || inning == c.inning
    {
      InningsGrow(s.columns, c, inning);
    }
  }

  lemma InningsGrow(cols: seq<Column>, c: Column, inning: int)
    ensures HasInning(cols + [c], inning) <==> HasInning(cols, inning) || inning == c.inning
  {
    if HasInning(cols, inning) || inning == c.inning {
      var d :| d in cols + [c] && d.inning == inning;
    }
  }

  /** A new column keeps the layout exactly when it is shared or its inning is already there: for one team alone in an
      inning of its own it would leave the other without a column. */
  lemma AddColumnKeepsLayoutIff(s: Sheet, inning: int, team: Option<Side>)
    requires Layout(s.columns)
    ensures Layout(AddColumn(s, inning, team).columns) <==> team == None || HasInning(s.columns, inning)
    ensures forall side, id :: ShownTo(s.columns, side, id) ==> ShownTo(AddColumn(s, inning, team).columns, side, id)
  {
    InsertKeepsLayoutIff(s.columns, NewColumn(s.columns, inning, team));
  }

  lemma {:induction false} NextSubIsNext(cols: seq<Column>, inning: int)
    ensures NextSub(cols, inning) == 0
         || exists c :: c in cols && c.inning == inning && c.id.sub == NextSub(cols, inning) - 1
    decreases |cols|
  {
    if cols != [] {
      var init, last := cols[..|cols| - 1], cols[|cols| - 1];
      NextSubIsNext(init, inning);
      assert cols == init + [last];
      if last.inning == inning && last.id.sub >= NextSub(init, inning) {
        assert last in cols;
      } else if NextSub(init, inning) > 0 {
        var c :| c in init && c.inning == inning && c.id.sub == NextSub(init, inning) - 1;
        assert c in cols;
      }
    }
  }

  /** The column added is the one asked for, named one past the last of its inning; the others and all cells stay. */
  lemma AddColumnAddsOne(s: Sheet, inning: int, team: Option<Side>, c: Column)
    requires Sorted(s.columns)
    ensures c in AddColumn(s, inning, team).columns
       <==> c in s.columns || c == Column(inning, ColId(inning, NextSub(s.columns, inning)), team)
    ensures |AddColumn(s, inning, team).columns| == |s.columns| + 1 && AddColumn(s, inning, team).events == s.events
  {
    var new_ := NewColumn(s.columns, inning, team);
    PushAndSort(s.columns, new_);
    InsertKeepsOrder(s.columns, new_);
    InsertAddsOne(s.columns, new_);
  }

  lemma {:induction false} InsertAddsOne(cols: seq<Column>, c: Column)
    ensures |Insert(cols, c)| == |cols| + 1
    decreases |cols|
  {
    if cols != [] {
      InsertAddsOne(cols[..|cols| - 1], c);
    }
  }

  function Find(cols: seq<Column>, id: ColId): (i: nat)
    ensures i <= |cols| && (i < |cols| ==> cols[i].id == id)
    ensures forall j :: 0 <= j < i ==> cols[j].id != id
    decreases |cols|
  {
    if cols == [] || cols[0].id == id then 0 else 1 + Find(cols[1..], id)
  }

  function Other(team: Side): Side {
    if team.Away? then Home else Away
  }

  /** The team would still see a column of this inning. */
  ghost predicate SeesAnother(cols: seq<Column>, inning: int, team: Side, id: ColId) {
    exists c :: c in cols && c.inning == inning && Visible(c, team) && c.id != id
  }

  ghost predicate HasData(events: map<Key, Cell>, team: Side, id: ColId) {
    exists key :: key in events && key.team == team && key.col == id && Recorded(events[key])
  }

  function WithoutCells(events: map<Key, Cell>, team: Side, id: ColId): map<Key, Cell> {
    map key | key in events && !(key.team == team && key.col == id) :: events[key]
  }

  ghost function RemoveColumn(s: Sheet, id: ColId, team: Side): Sheet {
    var i := Find(s.columns, id);
    if i == |s.columns| || !SeesAnother(s.columns, s.columns[i].inning, team, id) || HasData(s.events, team, id) then s
    else if s.columns[i].team == Some(team) then
      Sheet(s.columns[..i] + s.columns[i + 1..], WithoutCells(s.events, team, id))
    else if s.columns[i].team == None then
      Sheet(s.columns[i := s.columns[i].(team := Some(Other(team)))], WithoutCells(s.events, team, id))
    else s
  }

  /** When the removal goes ahead. */
  ghost predicate Removable(s: Sheet, id: ColId, team: Side) {
    ShownTo(s.columns, team, id) && SeesAnother(s.columns, id.inning, team, id) && !HasData(s.events, team, id)
  }

  /** The column at `i` gone, or handed to the other team. */
  ghost predicate Taken(before: seq<Column>, after: seq<Column>, i: nat, team: Side)
    requires i < |before|
  {
    || (before[i].team == Some(team) && after == before[..i] + before[i + 1..])
    || (before[i].team == None && after == before[i := before[i].(team := Some(Other(team)))])
  }

  lemma TakenContents(before: seq<Column>, after: seq<Column>, i: nat, team: Side)
    requires Layout(before) && i < |before| && Taken(before, after, i, team)
    ensures Sorted(after)
    ensures forall c :: c in after ==> c in before || c == before[i].(team := Some(Other(team)))
    ensures forall c :: c in before && c != before[i] ==> c in after
    ensures before[i] !in after
    ensures before[i].team == None ==> before[i].(team := Some(Other(team))) in after
    ensures before[i].team != None ==> forall c :: c in after ==> c in before
  {
    if before[i].team == None {
      assert after[i] == before[i].(team := Some(Other(team)));
      forall c | c in before && c != before[i]
        ensures c in after
      {
        var j :| 0 <= j < |before| && before[j] == c;
        assert after[j] == c;
      }
      forall j | 0 <= j < |after|
        ensures after[j] != before[i]
      {
        assert j < i ==> Before(before[j], before[i]);
        assert i < j ==> Before(before[i], before[j]);
      }
    } else {
      forall c | c in before && c != before[i]
        ensures c in after
      {
        var j :| 0 <= j < |before| && before[j] == c;
        assert j < i ==> after[j] == c;
        assert i < j ==> after[j - 1] == c;
      }
    }
  }

  /** Taking a column away from a team that sees another one keeps the layout; that column is gone for this team, and
      nothing changes for the other. */
  lemma TakenKeepsLayout(before: seq<Column>, after: seq<Column>, i: nat, team: Side)
    requires Layout(before) && i < |before| && Taken(before, after, i, team)
    requires SeesAnother(before, before[i].inning, team, before[i].id)
    ensures Layout(after)
    ensures forall side: Side, id :: ShownTo(after, side, id) <==> ShownTo(before, side, id) && !(side == team && id == before[i].id)
  {
    TakenContents(before, after, i, team);
    var col := before[i];
    forall inning, side: Side | HasInning(after, inning)
      ensures Seen(after, inning, side)
    {
      var d :| d in after && d.inning == inning;
      assert HasInning(before, inning);
      assert Seen(before, inning, side);
      var e :| e in before && e.inning == inning && Visible(e, side);
      if e == col && side == team {
        var f :| f in before && f.inning == col.inning && Visible(f, team) && f.id != col.id;
        assert f in after;
      } else if e == col {
        assert col.(team := Some(Other(team))) in after;
      } else {
        assert e in after;
      }
    }
    forall side: Side, id
      ensures ShownTo(after, side, id) <==> ShownTo(before, side, id) && !(side == team && id == col.id)
    {
      TakenShows(before, after, i, team, side, id);
    }
  }

  lemma TakenShows(before: seq<Column>, after: seq<Column>, i: nat, team: Side, side: Side, id: ColId)
    requires Layout(before) && i < |before| && Taken(before, after, i, team)
    ensures ShownTo(after, side, id) <==> ShownTo(before, side, id) && !(side == team && id == before[i].id)
  {
    TakenContents(before, after, i, team);
    var col := before[i];
    if ShownTo(before, side, id) && !(side == team && id == col.id) {
      var d :| d in before && d.id == id && Visible(d, side);
      if d == col {
        assert col.(team := Some(Other(team))) in after;
      } else {
        assert d in after;
      }
    }
    if ShownTo(after, side, id) {
      var d :| d in after && d.id == id && Visible(d, side);
      if d in before {
        if id == col.id {
          UniqueIds(before, d, col);
        }
      } else {
        assert col in before && Visible(col, side);
      }
    }
  }

  lemma RemovableIff(s: Sheet, id: ColId, team: Side)
    requires Layout(s.columns)
    ensures var i := Find(s.columns, id);
      Removable(s, id, team) <==>
        && i < |s.columns| && Visible(s.columns[i], team)
        && SeesAnother(s.columns, s.columns[i].inning, team, id) && !HasData(s.events, team, id)
  {
    var i := Find(s.columns, id);
    if i < |s.columns| {
      forall c | c in s.columns && c.id == id
        ensures c == s.columns[i]
      {
        UniqueIds(s.columns, c, s.columns[i]);
      }
      assert s.columns[i] in s.columns;
    }
  }

  /** A column leaves a team's sight exactly when the team sees another one in that inning and has recorded nothing in
      it. The layout stays, the other team sees what it saw, and no recorded cell of either team is lost. */
  lemma RemoveColumnTakesIff(s: Sheet, id: ColId, team: Side)
    requires Layout(s.columns)
    ensures var after := RemoveColumn(s, id, team);
      && Layout(after.columns)
      && (forall side: Side, x :: ShownTo(after.columns, side, x)
            <==> ShownTo(s.columns, side, x) && !(Removable(s, id, team) && side == team && x == id))
      && (forall key :: key in after.events ==> key in s.events && after.events[key] == s.events[key])
      && (forall key :: key in s.events && Recorded(s.events[key]) ==> key in after.events)
      && (forall key :: key in s.events && (s.events[key].outcome != "" || s.events[key].pitches > 0) ==> key in after.events)
      && (forall key :: key in s.events ==>
            (key in after.events <==> !(Removable(s, id, team) && key.team == team && key.col == id)))
  {
    RemovableIff(s, id, team);
    var i := Find(s.columns, id);
    if Removable(s, id, team) {
      TakenKeepsLayout(s.columns, RemoveColumn(s, id, team).columns, i, team);
    }
  }

  lemma RemoveColumnKeepsSight(s: Sheet, id: ColId, team: Side)
    requires Layout(s.columns) && NoOrphans(s.columns, s.events)
    ensures NoOrphans(RemoveColumn(s, id, team).columns, RemoveColumn(s, id, team).events)
  {
    RemoveColumnTakesIff(s, id, team);
    var after := RemoveColumn(s, id, team);
    forall key | key in after.events && Recorded(after.events[key])
      ensures ShownTo(after.columns, key.team, key.col)
    {
      assert key in s.events && Recorded(s.events[key]);
    }
  }

  method ApplyRemoveColumn(s: Sheet, id: ColId, team: Side) returns (after: Sheet)
    ensures after == RemoveColumn(s, id, team)
  {
    after := s;
    var i := Find(s.columns, id);
    if i == |s.columns| {
      return;
    }
    var col := s.columns[i];
    var another := false;
    for j := 0 to |s.columns|
      invariant another <==> SeesAnother(s.columns[..j], col.inning, team, id)
    {
      var c := s.columns[j];
      assert s.columns[..j + 1] == s.columns[..j] + [c];
      if c.inning == col.inning && Visible(c, team) && c.id != id {
        assert c in s.columns[..j + 1];
        another := true;
      }
    }
    assert s.columns[..|s.columns|] == s.columns;
    if !another {
      return;
    }
    var keys := s.events.Keys;
    while keys != {}
      invariant keys <= s.events.Keys
      invariant forall key :: key in s.events && key !in keys && key.team == team && key.col == id ==> !Recorded(s.events[key])
      decreases keys
    {
      var key :| key in keys;
      if key.team == team && key.col == id && Recorded(s.events[key]) {
        return;
      }
      keys := keys - {key};
    }
    if col.team == Some(team) {
      after := Sheet(s.columns[..i] + s.columns[i + 1..], WithoutCells(s.events, team, id));
    } else if col.team == None {
      after := Sheet(s.columns[i := col.(team := Some(Other(team)))], WithoutCells(s.events, team, id));
    }
  }

  /** A play moved to another cell, into a column made for it if need be. */
  function MovePlay(s: Sheet, source: Key, target: Key, data: Cell, newColumn: Option<Column>): Sheet {
    Sheet(match newColumn case Some(c) => Sort(s.columns + [c]) case None => s.columns,
          s.events[target := data] - {source})
  }

  /** The play leaves its cell for the target; no other cell is touched. */
  lemma MovePlayMoves(s: Sheet, source: Key, target: Key, data: Cell, newColumn: Option<Column>)
    requires source != target
    ensures var after := MovePlay(s, source, target, data, newColumn).events;
      && source !in after && target in after && after[target] == data
      && forall key :: key != source && key != target ==>
           (key in after <==> key in s.events) && (key in after ==> after[key] == s.events[key])
  {
  }

  /** Moving a recorded play loses nothing exactly when the target is another cell and holds no recorded data. */
  lemma MovePlayLosesNothingIff(s: Sheet, source: Key, target: Key, newColumn: Option<Column>)
    requires source in s.events && Recorded(s.events[source])
    ensures var after := MovePlay(s, source, target, s.events[source], newColumn).events;
      (&& target in after && after[target] == s.events[source]
       && forall key :: key in s.events && Recorded(s.events[key]) && key != source ==> key in after && after[key] == s.events[key])
      <==> source != target && (target in s.events && Recorded(s.events[target]) ==> s.events[target] == s.events[source])
  {
  }

  /** Between existing columns, a moved play stays in its team's sight exactly when the target column is the team's:
      the client's search for an empty cell (frontend/controllers/AppController.js) does not look at that. */
  lemma MovePlayKeepsSightIff(s: Sheet, source: Key, target: Key, data: Cell)
    requires NoOrphans(s.columns, s.events) && source != target && Recorded(data)
    ensures var after := MovePlay(s, source, target, data, None);
      NoOrphans(after.columns, after.events) <==> ShownTo(s.columns, target.team, target.col)
  {
    assert target in MovePlay(s, source, target, data, None).events;
  }

  datatype Edit =
    | InningAdded
    | ColumnAdded(inning: int, addedFor: Option<Side>)
    | ColumnRemoved(id: ColId, removedFor: Side)
    | PlayMoved(source: Key, target: Key, data: Cell, newColumn: Option<Column>)
    | CellWritten(key: Key, cell: Cell)

  ghost function Edited(s: Sheet, e: Edit): Sheet {
    match e
    case InningAdded => AddInning(s)
    case ColumnAdded(inning, team) => AddColumn(s, inning, team)
    case ColumnRemoved(id, team) => RemoveColumn(s, id, team)
    case PlayMoved(source, target, data, newColumn) => MovePlay(s, source, target, data, newColumn)
    case CellWritten(key, cell) => s.(events := s.events[key := cell])
  }

  /** Columns are added to existing innings, plays are recorded and moved where the team can see them, and a column made
      for a moved play is fresh. Nothing is asked of a removal. */
  ghost predicate Proper(s: Sheet, e: Edit) {
    match e
    case ColumnAdded(inning, _) => HasInning(s.columns, inning)
    case PlayMoved(_, target, _, None) => ShownTo(s.columns, target.team, target.col)
    case PlayMoved(_, target, _, Some(c)) =>
      && Fresh(s.columns, c) && c.id.inning == c.inning && (c.team == None || HasInning(s.columns, c.inning))
      && (ShownTo(s.columns, target.team, target.col) || (c.id == target.col && Visible(c, target.team)))
    case CellWritten(key, _) => ShownTo(s.columns, key.team, key.col)
    case _ => true
  }

  ghost predicate Tidy(s: Sheet) {
    Layout(s.columns) && NoOrphans(s.columns, s.events)
  }

  lemma EditStaysTidy(s: Sheet, e: Edit)
    requires Tidy(s) && Proper(s, e)
    ensures Tidy(Edited(s, e))
  {
    match e {
      case InningAdded => AddInningKeepsLayout(s);
      case ColumnAdded(inning, team) => AddColumnKeepsLayoutIff(s, inning, team);
      case ColumnRemoved(id, team) =>
        RemoveColumnTakesIff(s, id, team);
        RemoveColumnKeepsSight(s, id, team);
      case PlayMoved(source, target, data, newColumn) =>
        if newColumn.Some? {
          var c := newColumn.value;
          InsertKeepsLayoutIff(s.columns, c);
          PushAndSort(s.columns, c);
          InsertKeepsOrder(s.columns, c);
          assert c in Sort(s.columns + [c]);
        }
      case CellWritten(_, _) =>
    }
  }

  ghost function AllEdited(s: Sheet, edits: seq<Edit>): Sheet
    decreases |edits|
  {
    if edits == [] then s else AllEdited(Edited(s, edits[0]), edits[1..])
  }

  ghost predicate AllProper(s: Sheet, edits: seq<Edit>)
    decreases |edits|
  {
    edits == [] || (Proper(s, edits[0]) && AllProper(Edited(s, edits[0]), edits[1..]))
  }

  lemma {:induction false} TidyAlways(s: Sheet, edits: seq<Edit>)
    requires Tidy(s) && AllProper(s, edits)
    ensures Tidy(AllEdited(s, edits))
    decreases |edits|
  {
    if edits != [] {
      EditStaysTidy(s, edits[0]);
      TidyAlways(Edited(s, edits[0]), edits[1..]);
    }
  }

  /** The columns of a new game. */
  method StartColumns() returns (cols: seq<Column>)
    ensures Layout(cols) && |cols| == 7
    ensures forall inning :: HasInning(cols, inning) <==> 1 <= inning <= 7
  {
    cols := [];
    for i := 1 to 8
      invariant |cols| == i - 1
      invariant forall j :: 0 <= j < |cols| ==> cols[j] == Column(j + 1, ColId(j + 1, 0), None)
    {
      cols := cols + [Column(i, ColId(i, 0), None)];
    }
    forall inning
      ensures 1 <= inning <= 7 ==> HasInning(cols, inning) && forall team: Side :: Seen(cols, inning, team)
    {
      if 1 <= inning <= 7 {
        assert cols[inning - 1] in cols && cols[inning - 1].inning == inning;
      }
    }
  }
}

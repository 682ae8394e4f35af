/** The migration that merges a user's per-group rows into one shared row. */
module RowMerge {
  import opened Wrappers

  datatype Row = Row(
    id: nat, userId: string,
    heat: Option<int>, choppedCount: Option<int>, totalClimaxes: Option<int>, todayClimaxes: Option<int>,
    lastActiveDate: Option<int>, optedOut: Option<bool>, createdAt: int, updatedAt: int)

  ghost predicate UniqueIds(rows: seq<Row>) {
    forall i, j :: 0 <= i < j < |rows| ==> rows[i].id != rows[j].id
  }

  function Of(rows: seq<Row>, user: string): seq<Row> {
    if rows == [] then []
    else
      var before, last := Of(rows[..|rows| - 1], user), rows[|rows| - 1];
      if last.userId == user then before + [last] else before
  }

  /** A null count is zero. */
  function Count(value: Option<int>): int {
    if value.Some? then value.value else 0
  }

  datatype Field = Heat | Chopped | Total | Today

  function FieldOf(row: Row, field: Field): int {
    match field
    case Heat => Count(row.heat)
    case Chopped => Count(row.choppedCount)
    case Total => Count(row.totalClimaxes)
    case Today => Count(row.todayClimaxes)
  }

  function Sum(rows: seq<Row>, field: Field): int {
    if rows == [] then 0 else Sum(rows[..|rows| - 1], field) + FieldOf(rows[|rows| - 1], field)
  }

  lemma {:induction false} SumAppend(a: seq<Row>, b: seq<Row>, field: Field)
    ensures Sum(a + b, field) == Sum(a, field) + Sum(b, field)
  {
    if b == [] {
      assert a + b == a;
    } else {
      assert (a + b)[..|a + b| - 1] == a + b[..|b| - 1];
      SumAppend(a, b[..|b| - 1], field);
    }
  }

  lemma SumOfOne(row: Row)
    ensures Sum([row], Heat) == if row.heat.Some? then row.heat.value else 0
    ensures Sum([row], Chopped) == if row.choppedCount.Some? then row.choppedCount.value else 0
    ensures Sum([row], Total) == if row.totalClimaxes.Some? then row.totalClimaxes.value else 0
    ensures Sum([row], Today) == if row.todayClimaxes.Some? then row.todayClimaxes.value else 0
  {
    assert [row][..0] == [];
  }

  function ActiveOn(rows: seq<Row>, day: int): seq<Row> {
    if rows == [] then []
    else
      var before, last := ActiveOn(rows[..|rows| - 1], day), rows[|rows| - 1];
      if last.lastActiveDate == Some(day) then before + [last] else before
  }

  function LatestDate(rows: seq<Row>): Option<int> {
    if rows == [] then None
    else
      var before, last := LatestDate(rows[..|rows| - 1]), rows[|rows| - 1].lastActiveDate;
      if before.None? || (last.Some? && last.value > before.value) then last else before
  }

  predicate OptedOut(row: Row) {
    row.optedOut == Some(true)
  }

  /** Order by creation time, then id. */
  predicate Earlier(a: Row, b: Row) {
    a.createdAt < b.createdAt || (a.createdAt == b.createdAt && a.id < b.id)
  }

  function Earliest(rows: seq<Row>): (first: Row)
    requires rows != []
    ensures first in rows
    ensures forall r :: r in rows ==> !Earlier(r, first)
  {
    assert rows == rows[..|rows| - 1] + [rows[|rows| - 1]];
    if |rows| == 1 then rows[0]
    else
      var before, last := Earliest(rows[..|rows| - 1]), rows[|rows| - 1];
      if Earlier(last, before) then last else before
  }

  function Newest(rows: seq<Row>): (newest: Row)
    requires rows != []
    ensures newest in rows
    ensures forall r :: r in rows ==> r.updatedAt <= newest.updatedAt
  {
    assert rows == rows[..|rows| - 1] + [rows[|rows| - 1]];
    if |rows| == 1 then rows[0]
    else
      var before, last := Newest(rows[..|rows| - 1]), rows[|rows| - 1];
      if last.updatedAt > before.updatedAt then last else before
  }

  /** The row that stays, with the values of the whole group. */
  function Merged(group: seq<Row>, today: int): Row
    requires group != []
  {
    var current := ActiveOn(group, today);
    Earliest(group).(
      heat := Some(Sum(group, Heat)),
      choppedCount := Some(Sum(group, Chopped)),
      totalClimaxes := Some(Sum(group, Total)),
      todayClimaxes := Some(Sum(current, Today)),
      lastActiveDate := if current != [] then Some(today) else LatestDate(group),
      optedOut := Some(exists r :: r in group && OptedOut(r)),
      updatedAt := Newest(group).updatedAt)
  }

  /** What the merged row says about the group. */
  lemma {:induction false} MergedMeaning(group: seq<Row>, today: int)
    requires group != []
    ensures var m := Merged(group, today);
      && (exists r :: r in group && r.id == m.id && r.userId == m.userId && r.createdAt == m.createdAt)
      && (forall r :: r in group ==> m.createdAt <= r.createdAt && r.updatedAt <= m.updatedAt)
      && (forall r :: r in group && r.createdAt == m.createdAt ==> m.id <= r.id)
      && (exists r :: r in group && r.updatedAt == m.updatedAt)
      && (OptedOut(m) <==> exists r :: r in group && OptedOut(r))
      && (Some(today) in Dates(group) ==> m.lastActiveDate == Some(today))
      && (Some(today) !in Dates(group) ==> m.lastActiveDate in Dates(group))
      && (Some(today) !in Dates(group) ==>
            (forall d :: Some(d) in Dates(group) ==> m.lastActiveDate.Some? && d <= m.lastActiveDate.value))
  {
    assert Earliest(group) in group && Newest(group) in group;
    ActiveIffDate(group, today);
    LatestIsMaximum(group);
  }

  function Dates(rows: seq<Row>): seq<Option<int>> {
    seq(|rows|, i requires 0 <= i < |rows| => rows[i].lastActiveDate)
  }

  lemma DatesSnoc(rows: seq<Row>)
    requires rows != []
    ensures Dates(rows) == Dates(rows[..|rows| - 1]) + [rows[|rows| - 1].lastActiveDate]
  {
  }

  lemma {:induction false} ActiveIffDate(rows: seq<Row>, day: int)
    ensures ActiveOn(rows, day) != [] <==> Some(day) in Dates(rows)
  {
    if rows != [] {
      ActiveIffDate(rows[..|rows| - 1], day);
      DatesSnoc(rows);
    }
  }

  lemma ActiveOnAppend(rows: seq<Row>, row: Row, day: int)
    ensures ActiveOn(rows + [row], day) == ActiveOn(rows, day) + if row.lastActiveDate == Some(day) then [row] else []
  {
    assert (rows + [row])[..|rows|] == rows;
  }

  lemma {:induction false} LatestIsMaximum(rows: seq<Row>)
    ensures rows != [] ==> LatestDate(rows) in Dates(rows)
    ensures forall d :: Some(d) in Dates(rows) ==> LatestDate(rows).Some? && d <= LatestDate(rows).value
  {
    if rows != [] {
      LatestIsMaximum(rows[..|rows| - 1]);
      DatesSnoc(rows);
    }
  }

  // ---------- Updating one user's rows ----------

  /** One row updated, the user's other rows deleted. */
  function Collapsed(rows: seq<Row>, user: string, merged: Row): seq<Row> {
    if rows == [] then []
    else
      var before, last := Collapsed(rows[..|rows| - 1], user, merged), rows[|rows| - 1];
      if last.userId != user then before + [last]
      else if last.id == merged.id then before + [merged]
      else before
  }

  lemma OfAppend(rows: seq<Row>, row: Row, user: string)
    ensures Of(rows + [row], user) == if row.userId == user then Of(rows, user) + [row] else Of(rows, user)
  {
    assert (rows + [row])[..|rows|] == rows;
  }

  lemma {:induction false} OfMembers(rows: seq<Row>, user: string)
    ensures forall r :: r in Of(rows, user) <==> r in rows && r.userId == user
  {
    if rows != [] {
      OfMembers(rows[..|rows| - 1], user);
      assert rows == rows[..|rows| - 1] + [rows[|rows| - 1]];
    }
  }

  lemma {:induction false} OthersKept(rows: seq<Row>, user: string, merged: Row, other: string)
    requires other != user && merged.userId == user
    ensures Of(Collapsed(rows, user, merged), other) == Of(rows, other)
  {
    if rows != [] {
      var front, last := rows[..|rows| - 1], rows[|rows| - 1];
      OthersKept(front, user, merged, other);
      if last.userId != user {
        OfAppend(Collapsed(front, user, merged), last, other);
      } else if last.id == merged.id {
        OfAppend(Collapsed(front, user, merged), merged, other);
      }
    }
  }

  lemma {:induction false} OneLeft(rows: seq<Row>, user: string, merged: Row)
    requires UniqueIds(rows) && merged.userId == user
    ensures Of(Collapsed(rows, user, merged), user) == if Present(rows, user, merged.id) then [merged] else []
  {
    if rows != [] {
      var front, last := rows[..|rows| - 1], rows[|rows| - 1];
      OneLeft(front, user, merged);
      PresentSnoc(rows, user, merged.id);
      if last.userId != user {
        OfAppend(Collapsed(front, user, merged), last, user);
      } else if last.id == merged.id {
        OfAppend(Collapsed(front, user, merged), merged, user);
      }
    }
  }

  /** The user has a row with this id. */
  predicate Present(rows: seq<Row>, user: string, id: nat) {
    exists i :: 0 <= i < |rows| && rows[i].id == id && rows[i].userId == user
  }

  lemma PresentSnoc(rows: seq<Row>, user: string, id: nat)
    requires rows != [] && UniqueIds(rows)
    ensures var front, last := rows[..|rows| - 1], rows[|rows| - 1];
      && UniqueIds(front)
      && (Present(rows, user, id) <==> Present(front, user, id) || (last.id == id && last.userId == user))
      && (last.id == id ==> !Present(front, user, id))
  {
    var front := rows[..|rows| - 1];
    if Present(front, user, id) {
      var i :| 0 <= i < |front| && front[i].id == id && front[i].userId == user;
      assert rows[i].id == id && rows[i].userId == user;
    }
  }

  lemma {:induction false} CollapsedIds(rows: seq<Row>, user: string, merged: Row)
    requires UniqueIds(rows)
    ensures UniqueIds(Collapsed(rows, user, merged))
    ensures forall r :: r in Collapsed(rows, user, merged) ==> exists i :: 0 <= i < |rows| && rows[i].id == r.id
  {
    if rows != [] {
      var front := rows[..|rows| - 1];
      CollapsedIds(front, user, merged);
      forall r | r in Collapsed(rows, user, merged) ensures exists i :: 0 <= i < |rows| && rows[i].id == r.id {
        if r in Collapsed(front, user, merged) {
          var i :| 0 <= i < |front| && front[i].id == r.id;
          assert rows[i].id == r.id;
        } else {
          assert rows[|rows| - 1].id == r.id;
        }
      }
    }
  }

  /** What the migration makes of a user's rows. */
  function Shared(group: seq<Row>, today: int): seq<Row> {
    if |group| <= 1 then group else [Merged(group, today)]
  }

  lemma CollapsedToMerged(rows: seq<Row>, user: string, today: int)
    requires UniqueIds(rows) && |Of(rows, user)| > 1
    ensures var collapsed := Collapsed(rows, user, Merged(Of(rows, user), today));
      && UniqueIds(collapsed)
      && Of(collapsed, user) == Shared(Of(rows, user), today)
      && forall other :: other != user ==> Of(collapsed, other) == Of(rows, other)
  {
    var group := Of(rows, user);
    var merged := Merged(group, today);
    OfMembers(rows, user);
    assert Earliest(group) in rows;
    assert Present(rows, user, merged.id);
    CollapsedIds(rows, user, merged);
    OneLeft(rows, user, merged);
    forall other | other != user ensures Of(Collapsed(rows, user, merged), other) == Of(rows, other) {
      OthersKept(rows, user, merged, other);
    }
  }

  /** What one row adds to the sums: its own values, null being zero, today's only if it was active today. */
  lemma RowAdds(rows: seq<Row>, row: Row, today: int)
    ensures Sum(rows + [row], Heat) == Sum(rows, Heat) + if row.heat.Some? then row.heat.value else 0
    ensures Sum(rows + [row], Chopped)
         == Sum(rows, Chopped) + if row.choppedCount.Some? then row.choppedCount.value else 0
    ensures Sum(rows + [row], Total)
         == Sum(rows, Total) + if row.totalClimaxes.Some? then row.totalClimaxes.value else 0
    ensures Sum(ActiveOn(rows + [row], today), Today)
         == Sum(ActiveOn(rows, today), Today)
            + if row.lastActiveDate == Some(today) && row.todayClimaxes.Some? then row.todayClimaxes.value else 0
  {
    SumOfOne(row);
    SumAppend(rows, [row], Heat);
    SumAppend(rows, [row], Chopped);
    SumAppend(rows, [row], Total);
    SumAppend(ActiveOn(rows, today), [row], Today);
    ActiveOnAppend(rows, row, today);
    assert ActiveOn(rows, today) + [] == ActiveOn(rows, today);
  }

  /** The four counts are the sums over these rows. */
  ghost predicate Added(rows: seq<Row>, today: int, heat: int, chopped: int, total: int, current: int) {
    && heat == Sum(rows, Heat) && chopped == Sum(rows, Chopped)
    && total == Sum(rows, Total) && current == Sum(ActiveOn(rows, today), Today)
  }

  lemma AddedMerged(group: seq<Row>, today: int, heat: int, chopped: int, total: int, current: int)
    requires group != [] && Added(group, today, heat, chopped, total, current)
    ensures Merged(group, today).heat == Some(heat) && Merged(group, today).choppedCount == Some(chopped)
    ensures Merged(group, today).totalClimaxes == Some(total) && Merged(group, today).todayClimaxes == Some(current)
  {
  }

  /** The totals that merging keeps, added up row by row, null being zero. */
  method Totals(group: seq<Row>, today: int) returns (heat: int, chopped: int, total: int, current: int)
    requires group != []
    ensures Merged(group, today).heat == Some(heat) && Merged(group, today).choppedCount == Some(chopped)
    ensures Merged(group, today).totalClimaxes == Some(total) && Merged(group, today).todayClimaxes == Some(current)
  {
    heat, chopped, total, current := 0, 0, 0, 0;
    for n := 0 to |group|
      invariant Added(group[..n], today, heat, chopped, total, current)
    {
      var row := group[n];
      assert group[..n + 1] == group[..n] + [row];
      RowAdds(group[..n], row, today);
      heat := heat + (if row.heat.Some? then row.heat.value else 0);
      chopped := chopped + (if row.choppedCount.Some? then row.choppedCount.value else 0);
      total := total + (if row.totalClimaxes.Some? then row.totalClimaxes.value else 0);
      if row.lastActiveDate == Some(today) {
        current := current + (if row.todayClimaxes.Some? then row.todayClimaxes.value else 0);
      }
    }
    assert group[..|group|] == group;
    AddedMerged(group, today, heat, chopped, total, current);
  }

  /** Merging keeps a user's heat, chopped count and total climaxes. */
  lemma {:induction false} TotalsKept(group: seq<Row>, today: int, field: Field)
    requires !field.Today?
    ensures Sum(Shared(group, today), field) == Sum(group, field)
  {
    if |group| > 1 {
      var m := Merged(group, today);
      assert [m][..0] == [];
      assert Sum([m], field) == FieldOf(m, field);
    }
  }

  /** Today's climaxes survive for the user's rows that were active today. */
  lemma {:induction false} TodayKept(group: seq<Row>, today: int)
    ensures Sum(ActiveOn(Shared(group, today), today), Today) == Sum(ActiveOn(group, today), Today)
  {
    if |group| > 1 {
      var m := Merged(group, today);
      assert [m][..0] == [];
      ActiveIffDate(group, today);
      LatestIsMaximum(group);
      if ActiveOn(group, today) != [] {
        assert ActiveOn([m], today) == [m];
        assert Sum([m], Today) == FieldOf(m, Today);
      } else {
        assert Sum(ActiveOn(group, today), Today) == 0;
        assert m.lastActiveDate != Some(today);
        assert ActiveOn([m], today) == [];
      }
    }
  }

  class EstrusTable {
    var rows: seq<Row>

    constructor (rows: seq<Row>)
      ensures this.rows == rows
    {
      this.rows := rows;
    }

    method UserIds() returns (users: seq<string>)
      ensures forall r :: r in rows ==> r.userId in users
      ensures forall i, j :: 0 <= i < j < |users| ==> users[i] != users[j]
    {
      users := [];
      for n := 0 to |rows|
        invariant forall i :: 0 <= i < n ==> rows[i].userId in users
        invariant forall i, j :: 0 <= i < j < |users| ==> users[i] != users[j]
      {
        if rows[n].userId !in users {
          users := users + [rows[n].userId];
        }
      }
    }

    method RowsOf(user: string) returns (group: seq<Row>)
      ensures group == Of(rows, user)
    {
      group := [];
      for n := 0 to |rows|
        invariant group == Of(rows[..n], user)
      {
        assert rows[..n + 1][..n] == rows[..n];
        if rows[n].userId == user {
          group := group + [rows[n]];
        }
      }
      assert rows[..|rows|] == rows;
    }

    /** Updates the row with the merged row's id and deletes the user's others. */
    method Collapse(user: string, merged: Row)
      modifies this
      ensures rows == Collapsed(old(rows), user, merged)
    {
      var kept := [];
      for n := 0 to |rows|
        invariant kept == Collapsed(rows[..n], user, merged) && rows == old(rows)
      {
        assert rows[..n + 1][..n] == rows[..n];
        if rows[n].userId != user {
          kept := kept + [rows[n]];
        } else if rows[n].id == merged.id {
          kept := kept + [merged];
        }
      }
      assert rows[..|rows|] == rows;
      rows := kept;
    }

    /** The earliest of the user's rows takes the values of all of them. */
    method MergeUser(user: string, today: int)
      requires UniqueIds(rows)
      modifies this
      ensures UniqueIds(rows)
      ensures Of(rows, user) == Shared(Of(old(rows), user), today)
      ensures forall other :: other != user ==> Of(rows, other) == Of(old(rows), other)
      ensures |Of(old(rows), user)| <= 1 ==> rows == old(rows)
    {
      var group := RowsOf(user);
      if |group| <= 1 {
        return;
      }
      CollapsedToMerged(rows, user, today);
      Collapse(user, Merged(group, today));
    }

    /** One row per user afterwards; a table that has one row per user is left as it is. */
    method Upgrade(today: int)
      requires forall i, j :: 0 <= i < j < |rows| ==> rows[i].id != rows[j].id
      modifies this
      ensures forall i, j :: 0 <= i < j < |rows| ==> rows[i].id != rows[j].id
      ensures forall user :: Of(rows, user) == Shared(Of(old(rows), user), today)
      ensures forall user :: |Of(rows, user)| <= 1
      ensures (forall user :: |Of(old(rows), user)| <= 1) ==> rows == old(rows)
    {
      ghost var was := rows;
      var users := UserIds();
      for n := 0 to |users|
        invariant UniqueIds(rows) && MergedFor(was, rows, users[..n], today)
        invariant OneRowEach(was) ==> rows == was
      {
        ghost var before := rows;
        assert users[..n + 1] == users[..n] + [users[n]];
        MergeUser(users[n], today);
        MergedForOneMore(was, before, rows, users[..n], users[n], today);
      }
      assert users[..|users|] == users;
      MergedForAll(was, rows, users, today);
    }
  }

  ghost predicate OneRowEach(rows: seq<Row>) {
    forall user :: |Of(rows, user)| <= 1
  }

  /** The listed users' rows are merged, all others are as they were. */
  ghost predicate MergedFor(was: seq<Row>, rows: seq<Row>, done: seq<string>, today: int) {
    forall user :: Of(rows, user) == if user in done then Shared(Of(was, user), today) else Of(was, user)
  }

  lemma MergedForOneMore(
    was: seq<Row>, before: seq<Row>, after: seq<Row>, done: seq<string>, user: string, today: int)
    requires MergedFor(was, before, done, today) && user !in done
    requires Of(after, user) == Shared(Of(before, user), today)
    requires forall other :: other != user ==> Of(after, other) == Of(before, other)
    ensures MergedFor(was, after, done + [user], today)
  {
  }

  lemma MergedForAll(was: seq<Row>, rows: seq<Row>, users: seq<string>, today: int)
    requires MergedFor(was, rows, users, today) && forall r :: r in was ==> r.userId in users
    ensures forall user :: Of(rows, user) == Shared(Of(was, user), today) && |Of(rows, user)| <= 1
  {
    forall user | user !in users ensures Of(was, user) == [] {
      OfMembers(was, user);
      EmptyIfNoMember(Of(was, user));
    }
  }

  lemma EmptyIfNoMember(rows: seq<Row>)
    ensures rows == [] || exists r :: r in rows
  {
    if rows != [] {
      assert rows[0] in rows;
    }
  }
}

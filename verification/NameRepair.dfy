/**
 Employee numbers, and the migration that gives employees who share a display
 name new names built from their numbers.
 */
module NameRepair {
  import opened Wrappers
  import opened Decimal

  const NAME_LIMIT := 64

  /** The column is a 32-bit integer and numbering starts at one. */
  type EmployeeNumber = n: nat | n < 0x8000_0000

  datatype Employee = Employee(number: EmployeeNumber, name: string)

  function Suffix(n: EmployeeNumber): (s: string)
    ensures 0 < |s| && s[0] == '#' && forall i :: 1 <= i < |s| ==> IsDigit(s[i])
  {
    "#" + Padded(Digits(n), 4)
  }

  predicate EndsWith(s: string, suffix: string) {
    |suffix| <= |s| && s[|s| - |suffix|..] == suffix
  }

  /** The name cut so that name and suffix fit the column, then the suffix. */
  function Renamed(name: string, n: EmployeeNumber): string {
    var suffix := Suffix(n);
    SuffixFits(n);
    (if |name| > NAME_LIMIT - |suffix| then name[..NAME_LIMIT - |suffix|] else name) + suffix
  }

  /** An employee whose name ends in the employee's own number. */
  predicate Settled(e: Employee) {
    EndsWith(e.name, Suffix(e.number))
  }

  ghost predicate Shared(rows: seq<Employee>, name: string) {
    exists i, j :: 0 <= i < j < |rows| && rows[i].name == name && rows[j].name == name
  }

  ghost predicate DistinctNumbers(rows: seq<Employee>) {
    forall i, j :: 0 <= i < j < |rows| ==> rows[i].number != rows[j].number
  }

  ghost predicate SameNumbers(rows: seq<Employee>, rows': seq<Employee>) {
    |rows| == |rows'| && forall i :: 0 <= i < |rows| ==> rows'[i].number == rows[i].number
  }

  /** How many employees do not yet end in their own number. */
  function Unsettled(rows: seq<Employee>): nat {
    if rows == [] then 0
    else Unsettled(rows[..|rows| - 1]) + if Settled(rows[|rows| - 1]) then 0 else 1
  }

  lemma SuffixFits(n: EmployeeNumber)
    ensures |Suffix(n)| <= 11
  {
    assert PowerOfTen(10) == 10_000_000_000 by {
      assert PowerOfTen(2) == 100;
      assert PowerOfTen(4) == 100 * PowerOfTen(2);
      assert PowerOfTen(6) == 100 * PowerOfTen(4);
      assert PowerOfTen(8) == 100 * PowerOfTen(6);
    }
    DigitsLength(n, 10);
  }

  lemma SuffixInjective(m: EmployeeNumber, n: EmployeeNumber)
    requires Suffix(m) == Suffix(n)
    ensures m == n
  {
    assert Padded(Digits(m), 4) == Suffix(m)[1..] == Suffix(n)[1..] == Padded(Digits(n), 4);
    ValueOfPadded(Digits(m), 4);
    ValueOfPadded(Digits(n), 4);
    ValueOfDigits(m);
    ValueOfDigits(n);
  }

  /** The suffix starts at the last sharp sign of the name. */
  lemma SuffixStart(name: string, n: EmployeeNumber)
    requires EndsWith(name, Suffix(n))
    ensures var start := |name| - |Suffix(n)|;
      start < |name| && name[start] == '#' && forall i :: start < i < |name| ==> name[i] != '#'
  {
    var start := |name| - |Suffix(n)|;
    assert forall i :: start <= i < |name| ==> name[i] == Suffix(n)[i - start];
  }

  /** A name can end in the own number of at most one employee. */
  lemma OneOwner(name: string, m: EmployeeNumber, n: EmployeeNumber)
    requires EndsWith(name, Suffix(m)) && EndsWith(name, Suffix(n))
    ensures m == n
  {
    SuffixStart(name, m);
    SuffixStart(name, n);
    SuffixInjective(m, n);
  }

  /** A renamed employee is settled and fits the column; as much of the old name is kept as fits. */
  lemma RenamedSettles(name: string, n: EmployeeNumber)
    ensures EndsWith(Renamed(name, n), Suffix(n)) && |Renamed(name, n)| <= 64
    ensures var kept := |Renamed(name, n)| - |Suffix(n)|;
      && 0 <= kept <= |name| && Renamed(name, n) == name[..kept] + Suffix(n)
      && (kept < |name| ==> |Renamed(name, n)| == 64)
  {
    SuffixFits(n);
    var kept := |Renamed(name, n)| - |Suffix(n)|;
    assert Renamed(name, n) == name[..kept] + Suffix(n);
  }

  /** The digits after the sharp sign read back as the number, in four places or as many as it needs. */
  lemma SuffixReadsBack(n: EmployeeNumber)
    ensures |Suffix(n)| >= 5 && Value(Suffix(n)[1..]) == n
    ensures n < 10_000 ==> |Suffix(n)| == 5
    ensures n >= 1_000 ==> Suffix(n)[1] != '0'
  {
    assert Suffix(n)[1..] == Padded(Digits(n), 4);
    ValueOfPadded(Digits(n), 4);
    ValueOfDigits(n);
    assert PowerOfTen(1) == 10 && PowerOfTen(2) == 100 && PowerOfTen(3) == 1000 && PowerOfTen(4) == 10_000;
    if n < 10_000 {
      DigitsLength(n, 4);
    }
    if n >= 1_000 {
      DigitsWide(n, 3);
      DigitsPlain(n);
    }
  }

  /** The only text of a sharp sign and digits with the number's value, in four places or without a leading zero. */
  lemma {:induction false} SuffixIff(n: EmployeeNumber, s: string)
    ensures s == Suffix(n) <==>
      && |s| >= 5 && s[0] == '#' && (forall i :: 1 <= i < |s| ==> '0' <= s[i] <= '9')
      && Value(s[1..]) == n && (|s| > 5 ==> s[1] != '0')
  {
    SuffixReadsBack(n);
    assert |Suffix(n)| > 5 ==> n >= 10_000;
    if |s| >= 5 && s[0] == '#' && (forall i :: 1 <= i < |s| ==> '0' <= s[i] <= '9')
      && Value(s[1..]) == n && (|s| > 5 ==> s[1] != '0') {
      PaddedUnique(s[1..], n);
      assert s == "#" + s[1..];
    }
  }

  lemma PaddedUnique(s: string, n: nat)
    requires |s| >= 4 && (forall i :: 0 <= i < |s| ==> '0' <= s[i] <= '9') && (|s| > 4 ==> s[0] != '0')
    requires Value(s) == n
    ensures s == Padded(Digits(n), 4)
  {
    if s[0] != '0' {
      PlainUnique(s, n);
    } else {
      ZerosInFront(s, n);
    }
  }

  /** A text of digits is the numeral of its value behind zeros. */
  lemma {:induction false} ZerosInFront(s: string, n: nat)
    requires s != [] && (forall i :: 0 <= i < |s| ==> '0' <= s[i] <= '9') && Value(s) == n
    ensures s == Padded(Digits(n), |s|)
  {
    if s[0] != '0' || |s| == 1 {
      PlainUnique(s, n);
    } else {
      assert s == "0" + s[1..];
      ValueOfLeadingZero(s[1..]);
      ZerosInFront(s[1..], n);
      OneWider(Digits(n), |s| - 1);
    }
  }

  lemma {:induction false} OneWider(s: string, width: nat)
    requires |s| <= width
    ensures Padded(s, width + 1) == "0" + Padded(s, width)
    decreases width - |s|
  {
    if |s| < width {
      OneWider("0" + s, width);
    }
  }

  /** What becomes of an employee with number 7 who shares the name Bob. */
  lemma RenamedBob()
    ensures Renamed("Bob", 7) == "Bob#0007"
  {
    assert "7"[..0] == "" && "0" + "7" == "07" && "0" + "07" == "007" && "0" + "007" == "0007";
    assert Value("7") == 7;
    ValueOfLeadingZero("7");
    ValueOfLeadingZero("07");
    ValueOfLeadingZero("007");
    assert "#0007"[1..] == "0007";
    SuffixIff(7, "#0007");
  }

  /** Employees are counted one by one. */
  lemma {:induction false} UnsettledAppend(a: seq<Employee>, b: seq<Employee>)
    ensures Unsettled(a + b) == Unsettled(a) + Unsettled(b)
    ensures |a| == 1 ==> Unsettled(a) == if EndsWith(a[0].name, Suffix(a[0].number)) then 0 else 1
  {
    if b == [] {
      assert a + b == a;
    } else {
      assert (a + b)[..|a + b| - 1] == a + b[..|b| - 1];
      UnsettledAppend(a, b[..|b| - 1]);
    }
  }

  ghost predicate Keeps(rows: seq<Employee>, rows': seq<Employee>) {
    |rows| == |rows'| && forall i :: 0 <= i < |rows| && Settled(rows[i]) ==> Settled(rows'[i])
  }

  lemma {:induction false} UnsettledKept(rows: seq<Employee>, rows': seq<Employee>)
    requires Keeps(rows, rows')
    ensures Unsettled(rows') <= Unsettled(rows)
  {
    if rows != [] {
      UnsettledKept(rows[..|rows| - 1], rows'[..|rows| - 1]);
    }
  }

  /** Settling one more employee and unsettling none lowers the count. */
  lemma {:induction false} UnsettledDrops(rows: seq<Employee>, rows': seq<Employee>, i: nat)
    requires Keeps(rows, rows') && i < |rows| && !Settled(rows[i]) && Settled(rows'[i])
    ensures Unsettled(rows') < Unsettled(rows)
  {
    if i == |rows| - 1 {
      UnsettledKept(rows[..i], rows'[..i]);
    } else {
      UnsettledDrops(rows[..|rows| - 1], rows'[..|rows| - 1], i);
    }
  }

  /** Of two employees with one name, one is not settled. */
  lemma SharedUnsettled(rows: seq<Employee>, name: string)
    requires DistinctNumbers(rows) && Shared(rows, name)
    ensures exists i :: 0 <= i < |rows| && rows[i].name == name && !Settled(rows[i])
  {
    var i, j :| 0 <= i < j < |rows| && rows[i].name == name && rows[j].name == name;
    if Settled(rows[i]) && Settled(rows[j]) {
      OneOwner(name, rows[i].number, rows[j].number);
    }
  }

  /** An employee whose name is nobody else's and does not end in anybody else's number. */
  ghost predicate Untouchable(rows: seq<Employee>, i: nat)
    requires i < |rows|
  {
    forall j :: 0 <= j < |rows| && j != i ==>
      rows[j].name != rows[i].name && !EndsWith(rows[i].name, Suffix(rows[j].number))
  }

  /** What any number of renamings may have done to the table. */
  ghost predicate Repaired(rows: seq<Employee>, rows': seq<Employee>) {
    && SameNumbers(rows, rows')
    && forall i :: 0 <= i < |rows| ==>
         rows'[i].name == rows[i].name || (Settled(rows'[i]) && |rows'[i].name| <= NAME_LIMIT)
  }

  lemma RepairedKeeps(rows: seq<Employee>, rows': seq<Employee>)
    requires Repaired(rows, rows')
    ensures Keeps(rows, rows')
  {
  }

  // ---------- Which rows change ----------

  function RenamedTimes(name: string, n: EmployeeNumber, m: nat): string {
    if m == 0 then name else Renamed(RenamedTimes(name, n, m - 1), n)
  }

  /** A second renaming only ever lengthens a name, up to the column's width; there it changes nothing. */
  lemma RenamedAgain(name: string, n: EmployeeNumber)
    ensures |Renamed(name, n)| == NAME_LIMIT ==> Renamed(Renamed(name, n), n) == Renamed(name, n)
    ensures |Renamed(name, n)| < NAME_LIMIT ==> |Renamed(name, n)| == |name| + |Suffix(n)|
    ensures |name| <= NAME_LIMIT ==> |name| <= |Renamed(name, n)|
  {
    RenamedSettles(name, n);
    SuffixFits(n);
    var once := Renamed(name, n);
    if |once| == NAME_LIMIT {
      assert once == once[..NAME_LIMIT - |Suffix(n)|] + Suffix(n);
    }
  }

  /** Once a renaming has changed a name, further ones never bring it back. */
  lemma {:induction false} NeverBack(name: string, n: EmployeeNumber, m: nat)
    requires m > 0
    ensures RenamedTimes(name, n, m) == name <==> Renamed(name, n) == name
    ensures |Renamed(name, n)| == NAME_LIMIT ==> RenamedTimes(name, n, m) == Renamed(name, n)
    ensures |Renamed(name, n)| < NAME_LIMIT ==> |name| < |RenamedTimes(name, n, m)| <= NAME_LIMIT
  {
    RenamedAgain(name, n);
    RenamedSettles(name, n);
    if m > 1 {
      NeverBack(name, n, m - 1);
      RenamedAgain(RenamedTimes(name, n, m - 1), n);
      RenamedSettles(RenamedTimes(name, n, m - 1), n);
    } else {
      assert RenamedTimes(name, n, 1) == Renamed(RenamedTimes(name, n, 0), n);
    }
  }

  /** The employee has been renamed, once or several times. */
  ghost predicate Moved(e: Employee, e': Employee) {
    e'.number == e.number && exists m: nat :: m > 0 && e'.name == RenamedTimes(e.name, e.number, m)
  }

  /** Whoever had a treated name has been renamed, and nobody else has changed. */
  ghost predicate Treated(rows: seq<Employee>, rows': seq<Employee>, names: set<string>) {
    |rows| == |rows'| && forall i :: 0 <= i < |rows| ==>
      if rows[i].name in names then Moved(rows[i], rows'[i]) else rows'[i] == rows[i]
  }

  lemma MovedTwice(a: Employee, b: Employee, c: Employee)
    requires Moved(a, b) && Moved(b, c)
    ensures Moved(a, c)
  {
    var m: nat :| m > 0 && b.name == RenamedTimes(a.name, a.number, m);
    var k: nat :| k > 0 && c.name == RenamedTimes(b.name, b.number, k);
    RenamedTimesAdd(a.name, a.number, m, k);
  }

  lemma {:induction false} RenamedTimesAdd(name: string, n: EmployeeNumber, m: nat, k: nat)
    ensures RenamedTimes(RenamedTimes(name, n, m), n, k) == RenamedTimes(name, n, m + k)
  {
    if k > 0 {
      RenamedTimesAdd(name, n, m, k - 1);
    }
  }

  lemma TreatedTwice(a: seq<Employee>, b: seq<Employee>, c: seq<Employee>, first: set<string>, second: set<string>)
    requires Treated(a, b, first) && Treated(b, c, second)
    ensures Treated(a, c, first + second)
  {
    forall i | 0 <= i < |a|
      ensures if a[i].name in first + second then Moved(a[i], c[i]) else c[i] == a[i]
    {
      if a[i].name in first && b[i].name in second {
        MovedTwice(a[i], b[i], c[i]);
      }
    }
  }

  lemma RenamingTreats(before: seq<Employee>, after: seq<Employee>, name: string)
    requires |after| == |before|
    requires forall i :: 0 <= i < |after| ==>
      after[i] == if before[i].name == name then before[i].(name := Renamed(name, before[i].number)) else before[i]
    ensures Treated(before, after, {name})
  {
    forall i | 0 <= i < |before| && before[i].name == name ensures Moved(before[i], after[i]) {
      var number := before[i].number;
      assert RenamedTimes(name, number, 1) == Renamed(RenamedTimes(name, number, 0), number);
    }
  }

  /** A treated row changes unless its own name already was what the renaming makes of it. */
  lemma TreatedChanges(rows: seq<Employee>, rows': seq<Employee>, names: set<string>, i: nat)
    requires Treated(rows, rows', names) && i < |rows|
    ensures rows'[i] != rows[i] <==> rows[i].name in names && Renamed(rows[i].name, rows[i].number) != rows[i].name
  {
    if rows[i].name in names {
      var m: nat :| m > 0 && rows'[i].name == RenamedTimes(rows[i].name, rows[i].number, m);
      NeverBack(rows[i].name, rows[i].number, m);
    }
  }

  lemma MovedSettles(e: Employee, e': Employee)
    requires Moved(e, e')
    ensures Settled(e') && |e'.name| <= NAME_LIMIT
  {
    var m: nat :| m > 0 && e'.name == RenamedTimes(e.name, e.number, m);
    RenamedSettles(RenamedTimes(e.name, e.number, m - 1), e.number);
  }

  lemma TreatedRepairs(rows: seq<Employee>, rows': seq<Employee>, names: set<string>)
    requires Treated(rows, rows', names)
    ensures Repaired(rows, rows')
  {
    forall i | 0 <= i < |rows| && rows[i].name in names
      ensures rows'[i].number == rows[i].number && Settled(rows'[i]) && |rows'[i].name| <= NAME_LIMIT
    {
      MovedSettles(rows[i], rows'[i]);
    }
  }

  /** Treating a shared name settles somebody who was not. */
  lemma TreatedDrops(rows: seq<Employee>, rows': seq<Employee>, names: set<string>, name: string)
    requires DistinctNumbers(rows) && Shared(rows, name) && name in names && Treated(rows, rows', names)
    ensures Unsettled(rows') < Unsettled(rows)
  {
    SharedUnsettled(rows, name);
    var lucky :| 0 <= lucky < |rows| && rows[lucky].name == name && !Settled(rows[lucky]);
    MovedSettles(rows[lucky], rows'[lucky]);
    TreatedRepairs(rows, rows', names);
    RepairedKeeps(rows, rows');
    UnsettledDrops(rows, rows', lucky);
  }

  function NamesIn(names: seq<string>): set<string> {
    set name | name in names
  }

  /** The treated names are exactly those that were shared at the beginning of some pass. */
  ghost predicate SharedInPasses(tables: seq<seq<Employee>>, names: set<string>) {
    forall name :: name in names <==> exists k :: 0 <= k < |tables| && Shared(tables[k], name)
  }

  /** In the k-th table, whoever had a name treated by then has been renamed. */
  ghost predicate TreatedPass(tables: seq<seq<Employee>>, first: seq<Employee>, k: nat)
    requires k < |tables|
  {
    exists names: set<string> :: Treated(first, tables[k], names) && SharedInPasses(tables[..k], names)
  }

  ghost predicate TreatedPasses(tables: seq<seq<Employee>>, first: seq<Employee>) {
    forall k :: 0 <= k < |tables| ==> TreatedPass(tables, first, k)
  }

  /** A pass treats exactly the names shared before it. */
  ghost predicate PassOf(before: seq<Employee>, after: seq<Employee>) {
    exists names: set<string> :: Treated(before, after, names) && forall name :: name in names <==> Shared(before, name)
  }

  /** Every table comes from the one before it by a pass, and the rows from the last. */
  ghost predicate Chained(tables: seq<seq<Employee>>, rows: seq<Employee>) {
    forall k :: 0 <= k < |tables| ==> PassOf(tables[k], (tables + [rows])[k + 1])
  }

  lemma ChainedOn(tables: seq<seq<Employee>>, before: seq<Employee>, after: seq<Employee>)
    requires Chained(tables, before) && PassOf(before, after)
    ensures Chained(tables + [before], after)
  {
    var more := tables + [before];
    forall k | 0 <= k < |more| ensures PassOf(more[k], (more + [after])[k + 1]) {
      if k < |tables| {
        assert more[k] == tables[k] && (more + [after])[k + 1] == more[k + 1];
      } else {
        assert more[k] == before && (more + [after])[k + 1] == after;
      }
    }
  }

  /** How things stand before a pass: the tables of the passes done, the names treated, the rows now. */
  ghost predicate Underway(
    first: seq<Employee>, rows: seq<Employee>, tables: seq<seq<Employee>>, treated: set<string>)
  {
    && TreatedPasses(tables, first) && SharedInPasses(tables, treated) && Treated(first, rows, treated)
    && (if tables == [] then rows == first else tables[0] == first) && Chained(tables, rows)
    && forall k :: 0 <= k < |tables| ==> |tables[k]| == |first|
  }

  /** An employee who shares a name at the beginning of no pass keeps the name throughout. */
  lemma NeverSharedKeeps(tables: seq<seq<Employee>>, first: seq<Employee>, k: nat, i: nat)
    requires TreatedPasses(tables, first) && k < |tables| && i < |first|
    requires forall t :: 0 <= t < |tables| ==> |tables[t]| == |first|
    requires forall t :: 0 <= t < k ==> !Shared(tables[t], tables[t][i].name)
    ensures tables[k][i] == first[i]
  {
    assert TreatedPass(tables, first, k);
    var names: set<string> :| Treated(first, tables[k], names) && SharedInPasses(tables[..k], names);
    if first[i].name in names {
      var t :| 0 <= t < |tables[..k]| && Shared(tables[..k][t], first[i].name);
      NeverSharedKeeps(tables, first, t, i);
      assert false;
    }
  }

  /** One pass more, before which the table was this. */
  lemma PassTreats(
    first: seq<Employee>, before: seq<Employee>, after: seq<Employee>, tables: seq<seq<Employee>>,
    treated: set<string>, names: seq<string>)
    requires Underway(first, before, tables, treated)
    requires Treated(before, after, NamesIn(names)) && forall name :: name in names <==> Shared(before, name)
    ensures Underway(first, after, tables + [before], treated + NamesIn(names))
  {
    var more := tables + [before];
    assert PassOf(before, after) by {
      assert forall name :: name in NamesIn(names) <==> Shared(before, name);
    }
    ChainedOn(tables, before, after);
    TreatedTwice(first, before, after, treated, NamesIn(names));
    AllTreated(tables, first, before, treated);
    forall name ensures name in treated + NamesIn(names) <==> exists k :: 0 <= k < |more| && Shared(more[k], name) {
      if name in treated {
        var k :| 0 <= k < |tables| && Shared(tables[k], name);
        assert Shared(more[k], name);
      }
      if name in names {
        assert Shared(more[|tables|], name);
      }
    }
  }

  lemma AllTreated(tables: seq<seq<Employee>>, first: seq<Employee>, before: seq<Employee>, treated: set<string>)
    requires TreatedPasses(tables, first) && SharedInPasses(tables, treated) && Treated(first, before, treated)
    ensures TreatedPasses(tables + [before], first)
  {
    var more := tables + [before];
    forall k | 0 <= k < |more| ensures TreatedPass(more, first, k) {
      if k < |tables| {
        assert TreatedPass(tables, first, k);
        var names: set<string> :| Treated(first, tables[k], names) && SharedInPasses(tables[..k], names);
        assert more[..k] == tables[..k] && Treated(first, more[k], names);
      } else {
        assert more[..k] == tables && Treated(first, more[k], treated);
      }
    }
  }

  /** As long as an untouchable employee has its name, that name is not shared. */
  lemma UntouchableNotShared(rows: seq<Employee>, rows': seq<Employee>, i: nat)
    requires Repaired(rows, rows') && i < |rows| && Untouchable(rows, i) && rows'[i].name == rows[i].name
    ensures !Shared(rows', rows[i].name)
  {
  }

  lemma AfterPass(
    was: seq<Employee>, before: seq<Employee>, after: seq<Employee>, tables: seq<seq<Employee>>,
    treated: set<string>, names: seq<string>)
    requires DistinctNumbers(was) && Underway(was, before, tables, treated) && Spared(was, before)
    requires Treated(before, after, NamesIn(names)) && forall name :: name in names <==> Shared(before, name)
    ensures Underway(was, after, tables + [before], treated + NamesIn(names)) && Spared(was, after)
    ensures DistinctNumbers(after)
  {
    PassTreats(was, before, after, tables, treated, names);
    TreatedRepairs(was, before, treated);
    TreatedRepairs(was, after, treated + NamesIn(names));
    assert forall i :: 0 <= i < |after| && before[i].name !in names ==> after[i] == before[i];
    StillSpared(was, before, after, names);
  }

  /** Untouchable employees have kept their rows. */
  ghost predicate Spared(rows: seq<Employee>, rows': seq<Employee>) {
    |rows| == |rows'| && forall i :: 0 <= i < |rows| && Untouchable(rows, i) ==> rows'[i] == rows[i]
  }

  lemma StillSpared(was: seq<Employee>, before: seq<Employee>, after: seq<Employee>, names: seq<string>)
    requires Repaired(was, before) && Spared(was, before) && |after| == |before|
    requires forall name :: name in names ==> Shared(before, name)
    requires forall i :: 0 <= i < |after| && before[i].name !in names ==> after[i] == before[i]
    ensures Spared(was, after)
  {
    forall i | 0 <= i < |was| && Untouchable(was, i) ensures after[i] == was[i] {
      UntouchableNotShared(was, before, i);
    }
  }

  class EmployeeTable {
    /** Rows in the order of their employee numbers; a row's position stands for its id. */
    var rows: seq<Employee>

    constructor (rows: seq<Employee>)
      ensures this.rows == rows
    {
      this.rows := rows;
    }

    method MembersOf(name: string) returns (members: seq<nat>)
      ensures forall i :: i in members <==> 0 <= i < |rows| && rows[i].name == name
      ensures forall a, b :: 0 <= a < b < |members| ==> members[a] < members[b]
    {
      members := [];
      for i := 0 to |rows|
        invariant forall k :: k in members <==> 0 <= k < i && rows[k].name == name
        invariant forall a, b :: 0 <= a < b < |members| ==> members[a] < members[b]
      {
        if rows[i].name == name {
          assert forall a :: 0 <= a < |members| ==> members[a] in members;
          members := members + [i];
        }
      }
    }

    /** The names that more than one employee has. Their order is left open: it depends on the collation. */
    method DuplicateNames() returns (names: seq<string>)
      ensures forall name :: name in names <==> Shared(rows, name)
    {
      names := [];
      for i := 0 to |rows|
        invariant forall name :: name in names ==> Shared(rows, name)
        invariant forall k, j :: 0 <= k < i && k < j < |rows| && rows[k].name == rows[j].name ==> rows[k].name in names
      {
        if rows[i].name !in names {
          var members := MembersOf(rows[i].name);
          if |members| > 1 {
            assert members[0] in members && members[1] in members;
            names := names + [rows[i].name];
          } else {
            assert i in members;
            assert forall j :: j in members ==> j == i;
          }
        }
      }
    }

    /** Renames everybody who has this name now; the group is read before the first update. */
    method RenameGroup(name: string)
      modifies this
      ensures |rows| == |old(rows)|
      ensures forall i :: 0 <= i < |rows| ==>
        rows[i] == if old(rows)[i].name == name then old(rows)[i].(name := Renamed(name, old(rows)[i].number))
                   else old(rows)[i]
    {
      var members := MembersOf(name);
      for k := 0 to |members|
        invariant |rows| == |old(rows)|
        invariant forall i :: 0 <= i < |rows| ==>
          rows[i] == if i in members[..k] then old(rows)[i].(name := Renamed(name, old(rows)[i].number))
                     else old(rows)[i]
      {
        var i := members[k];
        assert i in members && i !in members[..k];
        assert members[..k + 1] == members[..k] + [i];
        rows := rows[i := rows[i].(name := Renamed(name, rows[i].number))];
      }
      assert members[..|members|] == members;
    }

    /** One pass over the duplicated names found at its start. */
    method RepairPass(names: seq<string>)
      requires DistinctNumbers(rows) && names != [] && Shared(rows, names[0])
      modifies this
      ensures Repaired(old(rows), rows) && Unsettled(rows) < Unsettled(old(rows))
      ensures Treated(old(rows), rows, NamesIn(names))
    {
      ghost var was := rows;
      for k := 0 to |names|
        invariant Treated(was, rows, NamesIn(names[..k]))
      {
        ghost var before := rows;
        RenameGroup(names[k]);
        RenamingTreats(before, rows, names[k]);
        TreatedTwice(was, before, rows, NamesIn(names[..k]), {names[k]});
        assert NamesIn(names[..k]) + {names[k]} == NamesIn(names[..k + 1]);
      }
      assert names[..|names|] == names;
      TreatedRepairs(was, rows, NamesIn(names));
      TreatedDrops(was, rows, NamesIn(names), names[0]);
    }

    /**
     Repeats passes until no name is duplicated. Each pass settles somebody, so
     there are at most as many passes as employees that are not settled. A row changes if and
     only if its name was shared before some pass, apart from a full-width name that already
     ends in the own number; so whoever is never in a duplicate group keeps the name.
     */
    method UniqueEmployeeNames()
      returns (ghost passes: nat, ghost tables: seq<seq<Employee>>, ghost treated: set<string>)
      requires forall i, j :: 0 <= i < j < |rows| ==> rows[i].number != rows[j].number
      modifies this
      ensures forall i, j :: 0 <= i < j < |rows| ==> rows[i].name != rows[j].name
      ensures Repaired(old(rows), rows)
      ensures |rows| == |old(rows)| && forall i :: 0 <= i < |rows| ==>
        rows[i].number == old(rows)[i].number && (rows[i].name == old(rows)[i].name || |rows[i].name| <= 64)
      ensures forall i :: 0 <= i < |rows| ==>
        (forall j :: 0 <= j < |rows| && j != i ==>
           old(rows)[j].name != old(rows)[i].name && !EndsWith(old(rows)[i].name, Suffix(old(rows)[j].number)))
        ==> rows[i] == old(rows)[i]
      ensures passes + Unsettled(rows) <= Unsettled(old(rows)) && |tables| == passes
      ensures RepairedThrough(old(rows), rows, tables, treated)
    {
      ghost var was := rows;
      passes, tables, treated := 0, [], {};
      while true
        invariant DistinctNumbers(rows) && Spared(was, rows) && Underway(was, rows, tables, treated)
        invariant |tables| == passes && passes + Unsettled(rows) <= Unsettled(was)
        decreases Unsettled(rows)
      {
        var names := DuplicateNames();
        if names == [] {
          NoneShared(rows);
          TreatedRepairs(was, rows, treated);
          Settlement(was, rows, tables, treated);
          return;
        }
        assert names[0] in names;
        ghost var before := rows;
        RepairPass(names);
        AfterPass(was, before, rows, tables, treated, names);
        passes, tables, treated := passes + 1, tables + [before], treated + NamesIn(names);
      }
    }
  }

  /** The employee in this row shares a name at the beginning of no pass. */
  ghost predicate NeverShares(tables: seq<seq<Employee>>, i: nat)
    requires forall k :: 0 <= k < |tables| ==> i < |tables[k]|
  {
    forall k :: 0 <= k < |tables| ==> !Shared(tables[k], tables[k][i].name)
  }

  /**
   The tables start with the first one, each comes from the one before by a pass over the names
   shared in it, and the treated names are exactly those shared in one of them. A row changes
   if and only if its name was treated and is not what the renaming makes of it; whoever shares
   a name in no table keeps the name.
   */
  ghost predicate RepairedThrough(
    was: seq<Employee>, rows: seq<Employee>, tables: seq<seq<Employee>>, treated: set<string>)
  {
    && |rows| == |was| && (if tables == [] then rows == was else tables[0] == was) && Chained(tables, rows)
    && (forall k :: 0 <= k < |tables| ==> |tables[k]| == |was|)
    && SharedInPasses(tables, treated)
    && (forall i :: 0 <= i < |rows| ==>
          (rows[i] != was[i] <==> was[i].name in treated && Renamed(was[i].name, was[i].number) != was[i].name))
    && (forall i :: 0 <= i < |rows| && NeverShares(tables, i) ==> rows[i] == was[i])
  }

  lemma Settlement(was: seq<Employee>, rows: seq<Employee>, tables: seq<seq<Employee>>, treated: set<string>)
    requires Underway(was, rows, tables, treated)
    ensures RepairedThrough(was, rows, tables, treated)
  {
    forall i | 0 <= i < |rows|
      ensures rows[i] != was[i] <==> was[i].name in treated && Renamed(was[i].name, was[i].number) != was[i].name
    {
      TreatedChanges(was, rows, treated, i);
    }
    forall i | 0 <= i < |rows| && NeverShares(tables, i) ensures rows[i] == was[i] {
      AllTreated(tables, was, rows, treated);
      var more: seq<seq<Employee>> := tables + [rows];
      forall t | 0 <= t < |tables| ensures !Shared(more[t], more[t][i].name) {
        assert more[t] == tables[t];
      }
      NeverSharedKeeps(more, was, |tables|, i);
    }
  }

  lemma NoneShared(rows: seq<Employee>)
    requires forall name :: !Shared(rows, name)
    ensures forall i, j :: 0 <= i < j < |rows| ==> rows[i].name != rows[j].name
  {
    forall i, j | 0 <= i < j < |rows| ensures rows[i].name != rows[j].name {
      assert !Shared(rows, rows[i].name);
    }
  }

  /** Where the numbers come from: the numbering migration, then a counter for everybody hired later. */
  class Numbering {
    var numbers: map<string, nat>
    var counter: Option<nat>

    ghost predicate Valid()
      reads this
    {
      && (forall a, b :: a in numbers && b in numbers && a != b ==> numbers[a] != numbers[b])
      && (forall a :: a in numbers ==> 0 < numbers[a])
      && (counter.Some? ==> 0 < counter.value && forall a :: a in numbers ==> numbers[a] < counter.value)
    }

    constructor ()
      ensures Valid() && numbers == map[] && counter == None
    {
      numbers, counter := map[], None;
    }

    /** Numbers the users from one, in the order they joined; the counter continues after them. */
    method NumberUsers(ids: seq<string>)
      requires forall i, j :: 0 <= i < j < |ids| ==> ids[i] != ids[j]
      modifies this
      ensures Valid() && counter == Some(|ids| + 1)
      ensures forall i :: 0 <= i < |ids| ==> ids[i] in numbers && numbers[ids[i]] == i + 1
      ensures forall a :: a in numbers ==> a in ids
    {
      var next := 1;
      numbers := map[];
      for k := 0 to |ids|
        invariant next == k + 1
        invariant forall i :: 0 <= i < k ==> ids[i] in numbers && numbers[ids[i]] == i + 1
        invariant forall a :: a in numbers ==> exists i :: 0 <= i < k && ids[i] == a
      {
        numbers := numbers[ids[k] := next];
        next := next + 1;
      }
      counter := Some(next);
    }

    /** The highest number in use, or zero. */
    method Highest() returns (top: nat)
      ensures forall a :: a in numbers ==> numbers[a] <= top
      ensures top == 0 || exists a :: a in numbers && numbers[a] == top
    {
      top := 0;
      var left := numbers.Keys;
      while left != {}
        invariant left <= numbers.Keys
        invariant forall a :: a in numbers && a !in left ==> numbers[a] <= top
        invariant top == 0 || exists a :: a in numbers && numbers[a] == top
        decreases left
      {
        var a :| a in left;
        if numbers[a] > top {
          top := numbers[a];
        }
        left := left - {a};
      }
    }

    /** A new employee takes the counter's number; a missing counter restarts above the highest. */
    method Hire(id: string) returns (number: nat)
      requires Valid() && id !in numbers
      modifies this
      ensures Valid() && numbers == old(numbers)[id := number] && counter == Some(number + 1)
      ensures forall a :: a in old(numbers) ==> old(numbers)[a] < number
      ensures old(counter).Some? ==> number == old(counter).value
      ensures old(counter).None? ==>
        number == 1 || exists a: string :: a in old(numbers) && number == old(numbers)[a] + 1
    {
      if counter.None? {
        var top := Highest();
        counter := Some(top + 1);
      }
      number := counter.value;
      counter := Some(number + 1);
      numbers := numbers[id := number];
    }
  }
}

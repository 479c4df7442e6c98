/** Manager identity: the distinct manager names of the manager history,
    sorted as Python sorts strings and numbered from 1. */
module ManagerIds {
  import opened Tables
  import opened ManagerHistory

  /** A manager history row with its manager id. */
  datatype NumberedTenure = NumberedTenure(
    clubId: int,
    managerName: string,
    managerId: nat,
    gamesManaged: nat,
    span: Option<Span>)

  /** Python's `<=` on strings: code point by code point, a proper prefix
      before any of its extensions. */
  predicate NameLeq(a: string, b: string) {
    |a| == 0 || (|b| > 0 && (a[0] < b[0] || (a[0] == b[0] && NameLeq(a[1..], b[1..]))))
  }

  predicate NameLess(a: string, b: string) {
    NameLeq(a, b) && a != b
  }

  lemma {:induction false} NameLeqTotal(a: string, b: string)
    ensures NameLeq(a, b) || NameLeq(b, a)
  {
    if |a| > 0 && |b| > 0 && a[0] == b[0] {
      NameLeqTotal(a[1..], b[1..]);
    }
  }

  lemma {:induction false} NameLeqAntisymmetric(a: string, b: string)
    requires NameLeq(a, b) && NameLeq(b, a)
    ensures a == b
  {
    if |a| > 0 && |b| > 0 {
      NameLeqAntisymmetric(a[1..], b[1..]);
      assert a == [a[0]] + a[1..] && b == [b[0]] + b[1..];
    }
  }

  lemma {:induction false} NameLeqTransitive(a: string, b: string, c: string)
    requires NameLeq(a, b) && NameLeq(b, c)
    ensures NameLeq(a, c)
  {
    if |a| > 0 && |b| > 0 && |c| > 0 && a[0] == b[0] == c[0] {
      NameLeqTransitive(a[1..], b[1..], c[1..]);
    }
  }

  predicate Sorted(s: seq<string>) {
    forall i, j :: 0 <= i < j < |s| ==> NameLeq(s[i], s[j])
  }

  lemma PrependSorted(y: string, s: seq<string>)
    requires Sorted(s)
    requires forall z :: z in s ==> NameLeq(y, z)
    ensures Sorted([y] + s)
  {
    forall i, j | 0 <= i < j < |[y] + s| ensures NameLeq(([y] + s)[i], ([y] + s)[j]) {
      if i > 0 {
        assert ([y] + s)[i] == s[i - 1] && ([y] + s)[j] == s[j - 1];
      } else {
        assert ([y] + s)[j] in s;
      }
    }
  }

  /** Insertion of one name into a sorted list of names. */
  function Insert(x: string, s: seq<string>): (r: seq<string>)
    requires Sorted(s)
    ensures Sorted(r)
    ensures multiset(r) == multiset(s) + multiset{x}
  {
    if |s| == 0 then [x]
    else if NameLeq(x, s[0]) then
      forall z | z in s ensures NameLeq(x, z) {
        if z != s[0] { NameLeqTransitive(x, s[0], z); }
      }
      PrependSorted(x, s);
      [x] + s
    else
      assert s == [s[0]] + s[1..];
      var r := Insert(x, s[1..]);
      NameLeqTotal(x, s[0]);
      forall z | z in r ensures NameLeq(s[0], z) {
        assert z in multiset(r);
      }
      PrependSorted(s[0], r);
      [s[0]] + r
  }

  /** `sorted`: the names in ascending order, each as often as given. */
  function Sort(s: seq<string>): (r: seq<string>)
    ensures Sorted(r)
    ensures multiset(r) == multiset(s)
  {
    if |s| == 0 then []
    else
      assert s == [s[0]] + s[1..];
      Insert(s[0], Sort(s[1..]))
  }

  /** A sequence without repetitions has no element twice in its multiset. */
  lemma {:induction false} DistinctCounts(s: seq<string>)
    requires forall i, j :: 0 <= i < j < |s| ==> s[i] != s[j]
    ensures forall x :: multiset(s)[x] <= 1
  {
    if |s| > 0 {
      var pre := s[..|s| - 1];
      assert s == pre + [s[|s| - 1]];
      DistinctCounts(pre);
      assert s[|s| - 1] !in pre;
    }
  }

  /** A sorted list of names without repetitions is strictly ascending. */
  lemma StrictlySorted(s: seq<string>)
    requires Sorted(s)
    requires forall x :: multiset(s)[x] <= 1
    ensures forall i, j :: 0 <= i < j < |s| ==> NameLess(s[i], s[j])
  {
    forall i, j | 0 <= i < j < |s| ensures s[i] != s[j] {
      if s[i] == s[j] {
        TwiceCounted(s, i, j);
      }
    }
  }

  lemma TwiceCounted(s: seq<string>, i: nat, j: nat)
    requires i < j < |s| && s[i] == s[j]
    ensures multiset(s)[s[i]] >= 2
  {
    assert s == s[..i] + [s[i]] + s[i + 1..j] + [s[j]] + s[j + 1..];
  }

  /** The manager name column. */
  function NameColumn(managers: seq<ManagerTenure>): (names: seq<string>)
    ensures forall n :: n in names <==> exists m :: m in managers && m.managerName == n
  {
    if |managers| == 0 then []
    else
      var last := managers[|managers| - 1];
      assert managers == managers[..|managers| - 1] + [last];
      NameColumn(managers[..|managers| - 1]) + [last.managerName]
  }

  /** `sorted(unique_managers)`: every manager name once, in ascending order. */
  function SortedNames(managers: seq<ManagerTenure>): (names: seq<string>)
    ensures forall i, j :: 0 <= i < j < |names| ==> NameLess(names[i], names[j])
    ensures forall n :: n in names <==> exists m :: m in managers && m.managerName == n
  {
    var unique := Dedup(NameColumn(managers));
    SortUnique(unique);
    Sort(unique)
  }

  lemma SortUnique(unique: seq<string>)
    requires forall i, j :: 0 <= i < j < |unique| ==> unique[i] != unique[j]
    ensures forall i, j :: 0 <= i < j < |Sort(unique)| ==> NameLess(Sort(unique)[i], Sort(unique)[j])
    ensures forall n :: n in Sort(unique) <==> n in unique
  {
    var names := Sort(unique);
    DistinctCounts(unique);
    StrictlySorted(names);
    forall n ensures n in names <==> n in unique {
      assert n in names <==> n in multiset(names);
      assert n in unique <==> n in multiset(unique);
    }
  }

  /** The position of a name in a list of names. */
  function IndexOf(names: seq<string>, n: string): (i: nat)
    requires n in names
    ensures i < |names| && names[i] == n
  {
    if names[0] == n then 0 else 1 + IndexOf(names[1..], n)
  }

  /** `manager_id_mapping`: each name to its 1-based position in the sorted list. */
  function IdMapping(names: seq<string>): map<string, nat> {
    map n | n in names :: IndexOf(names, n) + 1
  }

  /** The distinct manager names. */
  function NameSet(managers: seq<ManagerTenure>): set<string> {
    set m | m in managers :: m.managerName
  }

  lemma {:induction false} DistinctCardinality(s: seq<string>)
    requires forall i, j :: 0 <= i < j < |s| ==> s[i] != s[j]
    ensures |set x | x in s| == |s|
  {
    if |s| > 0 {
      var pre := s[..|s| - 1];
      assert s == pre + [s[|s| - 1]];
      DistinctCardinality(pre);
      assert (set x | x in s) == (set x | x in pre) + {s[|s| - 1]};
    }
  }

  /** The ids of a numbered manager history. */
  function IdSet(numbered: seq<NumberedTenure>): set<nat> {
    set i | 0 <= i < |numbered| :: numbered[i].managerId
  }

  /** `manager_df['manager_name'].map(manager_id_mapping)`. */
  function NumberRows(managers: seq<ManagerTenure>, ids: map<string, nat>): (rows: seq<NumberedTenure>)
    requires forall m :: m in managers ==> m.managerName in ids
    ensures |rows| == |managers|
    ensures forall i :: 0 <= i < |managers| ==>
      rows[i] == NumberedTenure(managers[i].clubId, managers[i].managerName, ids[managers[i].managerName],
                                managers[i].gamesManaged, managers[i].span)
  {
    seq(|managers|, i requires 0 <= i < |managers| =>
      var m := managers[i];
      NumberedTenure(m.clubId, m.managerName, ids[m.managerName], m.gamesManaged, m.span))
  }

  /** A numbering of the manager history by name: every other column is
      kept, two rows have equal names exactly when they have equal ids, a
      smaller name has a smaller id, and the ids are exactly the numbers from
      1 to the number of distinct names. */
  ghost predicate NumberedByName(managers: seq<ManagerTenure>, numbered: seq<NumberedTenure>) {
    && |numbered| == |managers|
    && (forall i :: 0 <= i < |managers| ==>
         var m, n := managers[i], numbered[i];
         n.clubId == m.clubId && n.managerName == m.managerName &&
         n.gamesManaged == m.gamesManaged && n.span == m.span)
    && (forall i, j :: 0 <= i < |numbered| && 0 <= j < |numbered| ==>
         (numbered[i].managerName == numbered[j].managerName <==> numbered[i].managerId == numbered[j].managerId))
    && (forall i, j :: 0 <= i < |numbered| && 0 <= j < |numbered| ==>
         (NameLess(numbered[i].managerName, numbered[j].managerName) ==> numbered[i].managerId < numbered[j].managerId))
    && (forall i :: 0 <= i < |numbered| ==> 1 <= numbered[i].managerId <= |NameSet(managers)|)
    && (forall k :: 1 <= k <= |NameSet(managers)| ==> k in IdSet(numbered))
  }

  /** Adding the `manager_id` column: ids are the 1-based positions of the
      names in the sorted list of distinct names, which makes the numbering
      one by name. */
  function AssignManagerIds(managers: seq<ManagerTenure>): (numbered: seq<NumberedTenure>)
    ensures NumberedByName(managers, numbered)
  {
    NumberingByName(managers);
    NumberRows(managers, IdMapping(SortedNames(managers)))
  }

  /** The numbering by sorted position is a numbering by name. */
  lemma NumberingByName(managers: seq<ManagerTenure>)
    ensures forall m :: m in managers ==> m.managerName in IdMapping(SortedNames(managers))
    ensures NumberedByName(managers, NumberRows(managers, IdMapping(SortedNames(managers))))
  {
    var names := SortedNames(managers);
    NamesAreCounted(managers, names);
    NumberingFollowsNames(managers, names);
    NumberingIsOnto(managers, names);
  }

  /** No two numbered tenures share a club and a manager id. */
  predicate DistinctManagers(numbered: seq<NumberedTenure>) {
    forall i, j :: 0 <= i < j < |numbered| ==>
      numbered[i].clubId != numbered[j].clubId || numbered[i].managerId != numbered[j].managerId
  }

  /** Equal ids mean equal names, so a history with one row per (club,
      manager) pair gets one row per (club, manager id) pair. */
  lemma NumberingKeepsDistinct(managers: seq<ManagerTenure>)
    requires DistinctTenures(managers)
    ensures DistinctManagers(AssignManagerIds(managers))
  {
    var numbered := AssignManagerIds(managers);
    forall i, j | 0 <= i < j < |numbered|
      ensures numbered[i].clubId != numbered[j].clubId || numbered[i].managerId != numbered[j].managerId
    {
      assert numbered[i].clubId == managers[i].clubId && numbered[i].managerName == managers[i].managerName;
      assert numbered[j].clubId == managers[j].clubId && numbered[j].managerName == managers[j].managerName;
    }
  }

  lemma NamesAreCounted(managers: seq<ManagerTenure>, names: seq<string>)
    requires names == SortedNames(managers)
    ensures |names| == |NameSet(managers)|
    ensures forall m :: m in managers ==> m.managerName in IdMapping(names)
  {
    assert (set x | x in names) == NameSet(managers);
    DistinctCardinality(names);
  }

  /** In a list without repetitions, the position found for an element is its own. */
  lemma IndexOfDistinct(names: seq<string>, k: nat)
    requires forall i, j :: 0 <= i < j < |names| ==> names[i] != names[j]
    requires k < |names|
    ensures IndexOf(names, names[k]) == k
  {
  }

  lemma NumberingFollowsNames(managers: seq<ManagerTenure>, names: seq<string>)
    requires names == SortedNames(managers)
    requires forall m :: m in managers ==> m.managerName in IdMapping(names)
    ensures var rows := NumberRows(managers, IdMapping(names));
      forall i, j :: 0 <= i < |rows| && 0 <= j < |rows| ==>
        (rows[i].managerName == rows[j].managerName <==> rows[i].managerId == rows[j].managerId)
    ensures var rows := NumberRows(managers, IdMapping(names));
      forall i, j :: 0 <= i < |rows| && 0 <= j < |rows| ==>
        (NameLess(rows[i].managerName, rows[j].managerName) ==> rows[i].managerId < rows[j].managerId)
    ensures var rows := NumberRows(managers, IdMapping(names));
      forall i :: 0 <= i < |rows| ==> 1 <= rows[i].managerId <= |NameSet(managers)|
  {
    NamesAreCounted(managers, names);
    var rows := NumberRows(managers, IdMapping(names));
    forall i, j | 0 <= i < |rows| && 0 <= j < |rows|
      ensures rows[i].managerName == rows[j].managerName <==> rows[i].managerId == rows[j].managerId
      ensures NameLess(rows[i].managerName, rows[j].managerName) ==> rows[i].managerId < rows[j].managerId
      ensures 1 <= rows[i].managerId <= |names|
    {
      var a, b := rows[i].managerName, rows[j].managerName;
      assert managers[i] in managers && managers[j] in managers;
      var ia, ib := IndexOf(names, a), IndexOf(names, b);
      assert rows[i].managerId == ia + 1 && rows[j].managerId == ib + 1;
      if ia == ib {
        assert a == names[ia] == b;
      }
      if NameLess(a, b) && ib <= ia {
        if ib < ia {
          assert NameLess(names[ib], names[ia]);
          NameLeqAntisymmetric(a, b);
        }
      }
    }
  }

  lemma NumberingIsOnto(managers: seq<ManagerTenure>, names: seq<string>)
    requires names == SortedNames(managers)
    requires forall m :: m in managers ==> m.managerName in IdMapping(names)
    ensures forall k :: 1 <= k <= |names| ==> k in IdSet(NumberRows(managers, IdMapping(names)))
  {
    var rows := NumberRows(managers, IdMapping(names));
    forall k | 1 <= k <= |names| ensures k in IdSet(rows) {
      var n := names[k - 1];
      assert n in names;
      var m :| m in managers && m.managerName == n;
      var i :| 0 <= i < |managers| && managers[i] == m;
      IndexOfDistinct(names, k - 1);
      assert rows[i].managerId == k;
    }
  }
}

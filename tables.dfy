/**
 * What the SQL in data/db_operations.py asks of SQLite, on id-keyed maps: a
 * table scan in rowid order, `ORDER BY` over an ordering relation, and
 * `ORDER BY key LIMIT 1`.
 */
module Tables {
  import opened Text

  /** A non-empty set has a member. */
  lemma SetHasMember(s: set<int>)
    requires s != {}
    ensures exists x :: x in s
  {
    if forall x :: x !in s {
      assert false;
    }
  }

  /** Every non-empty set of ids has a least element. */
  lemma {:induction false} HasLeast(ids: set<int>)
    requires ids != {}
    ensures exists m :: m in ids && forall x :: x in ids ==> m <= x
    decreases |ids|
  {
    SetHasMember(ids);
    var y :| y in ids;
    if ids == {y} {
      assert forall x :: x in ids ==> y <= x;
    } else {
      var rest := ids - {y};
      HasLeast(rest);
      var m :| m in rest && forall x :: x in rest ==> m <= x;
      var least := if y < m then y else m;
      forall x | x in ids ensures least <= x {
        if x != y {
          assert x in rest;
        }
      }
      assert least in ids;
    }
  }

  function LeastId(ids: set<int>): (m: int)
    requires ids != {}
    ensures m in ids && forall x :: x in ids ==> m <= x
  {
    HasLeast(ids);
    var m :| m in ids && forall x :: x in ids ==> m <= x;
    m
  }

  /** The ids of a table in rowid order: the order of a scan without ORDER BY. */
  function SortedIds(ids: set<int>): (r: seq<int>)
    ensures |r| == |ids|
    ensures forall i, j :: 0 <= i < j < |r| ==> r[i] < r[j]
    ensures forall x :: x in r <==> x in ids
    decreases |ids|
  {
    if ids == {} then []
    else
      var m := LeastId(ids);
      var rest := SortedIds(ids - {m});
      assert forall x :: x in rest ==> m < x;
      [m] + rest
  }

  /** The rows of the ids in `order`, projected through `row`, in that order. */
  function Image<R>(order: seq<int>, row: int --> R): (r: seq<R>)
    requires forall i :: 0 <= i < |order| ==> row.requires(order[i])
    ensures |r| == |order|
    ensures forall i :: 0 <= i < |r| ==> r[i] == row(order[i])
  {
    if order == [] then []
    else Image(order[..|order| - 1], row) + [row(order[|order| - 1])]
  }

  /** When no id repeats, each value occurs in the image once for every id that projects to it. */
  lemma {:induction false} ImageCount<R>(order: seq<int>, row: int --> R, x: R)
    requires forall id :: id in order ==> row.requires(id)
    requires forall i, j :: 0 <= i < j < |order| ==> order[i] != order[j]
    ensures multiset(Image(order, row))[x] == |set id | id in order && row(id) == x|
  {
    if order != [] {
      var init, last := order[..|order| - 1], order[|order| - 1];
      assert order == init + [last];
      ImageCount(init, row, x);
      assert last !in init by {
        assert forall i :: 0 <= i < |init| ==> init[i] == order[i];
      }
      MatchesSnoc(init, last, row, x);
      assert Image(order, row) == Image(init, row) + [row(last)];
    }
  }

  /** Appending a new id adds one match exactly when its row is `x`. */
  lemma MatchesSnoc<R>(init: seq<int>, last: int, row: int --> R, x: R)
    requires forall id :: id in init + [last] ==> row.requires(id)
    requires last !in init
    ensures |set id | id in init + [last] && row(id) == x| == |set id | id in init && row(id) == x| + (if row(last) == x then 1 else 0)
  {
    var before := set id | id in init && row(id) == x;
    var after := set id | id in init + [last] && row(id) == x;
    var added := if row(last) == x then {last} else {};
    forall id | id in after ensures id in before + added {
      assert id in init || id == last;
    }
    assert after == before + added;
  }

  /** The image of an enumeration of `ids` holds the rows of `ids` and nothing else. */
  lemma ImageMembers<R>(order: seq<int>, ids: set<int>, row: int --> R)
    requires forall id :: id in ids ==> row.requires(id)
    requires forall i :: 0 <= i < |order| ==> order[i] in ids && row.requires(order[i])
    requires forall id :: id in ids ==> id in order
    ensures forall x :: x in Image(order, row) <==> exists id :: id in ids && x == row(id)
  {
    var r := Image(order, row);
    forall x ensures x in r <==> exists id :: id in ids && x == row(id) {
      if x in r {
        var i :| 0 <= i < |r| && r[i] == x;
        assert order[i] in ids;
      }
      if exists id :: id in ids && x == row(id) {
        var id :| id in ids && x == row(id);
        assert id in order;
        var i :| 0 <= i < |order| && order[i] == id;
        assert r[i] == x;
      }
    }
  }

  /** The image of an enumeration of `ids` without repeats counts each value once per id whose row it is. */
  lemma ImageCountOfSet<R>(order: seq<int>, ids: set<int>, row: int --> R)
    requires forall i :: 0 <= i < |order| ==> order[i] in ids
    requires forall id :: id in ids ==> id in order
    requires forall i, j :: 0 <= i < j < |order| ==> order[i] != order[j]
    requires forall id :: id in ids ==> row.requires(id)
    ensures forall x :: multiset(Image(order, row))[x] == |set id | id in ids && row(id) == x|
  {
    forall x ensures multiset(Image(order, row))[x] == |set id | id in ids && row(id) == x| {
      ImageCount(order, row, x);
      var viaOrder, viaIds := set id | id in order && row(id) == x, set id | id in ids && row(id) == x;
      forall id | id in viaIds ensures id in viaOrder {
        assert id in order;
      }
      assert viaOrder == viaIds;
    }
  }

  /**
   * A scan of the rows `ids`, each projected through `row`: one result per id,
   * and nothing else. A value occurs once for every id whose row it is.
   */
  function ScanRows<R(!new)>(ids: set<int>, row: int --> R): (r: seq<R>)
    requires forall id :: id in ids ==> row.requires(id)
    ensures |r| == |ids|
    ensures forall x :: x in r <==> exists id :: id in ids && x == row(id)
    ensures forall x :: multiset(r)[x] == |set id | id in ids && row(id) == x|
  {
    var order := SortedIds(ids);
    assert forall i :: 0 <= i < |order| ==> order[i] in ids && row.requires(order[i]);
    ImageMembers(order, ids, row);
    ImageCountOfSet(order, ids, row);
    Image(order, row)
  }

  /** A set that holds exactly the ids whose row is `x` has the size `ScanRows` counts for `x`. */
  lemma MatchesAre<R>(ids: set<int>, row: int --> R, x: R, expected: set<int>)
    requires forall id :: id in ids ==> row.requires(id)
    requires forall id :: id in expected <==> id in ids && row(id) == x
    ensures |set id | id in ids && row(id) == x| == |expected|
  {
    var matches := set id | id in ids && row(id) == x;
    forall id | id in expected ensures id in matches {
      assert id in ids && row(id) == x;
    }
    forall id | id in matches ensures id in expected {
      assert id in ids && row(id) == x;
    }
    assert matches == expected;
  }

  /** `le` orders every pair one way or the other, as an SQL ordering does. */
  ghost predicate Total<T(!new)>(le: (T, T) -> bool) {
    forall a, b :: le(a, b) || le(b, a)
  }

  /** Each row is ordered before the next one. */
  predicate SortedBy<T>(s: seq<T>, le: (T, T) -> bool) {
    forall i :: 0 < i < |s| ==> le(s[i - 1], s[i])
  }

  function InsertBy<T(!new)>(x: T, s: seq<T>, le: (T, T) -> bool): (r: seq<T>)
    requires Total(le) && SortedBy(s, le)
    ensures |r| == |s| + 1 && multiset(r) == multiset(s) + multiset{x}
    ensures SortedBy(r, le)
    ensures r[0] == x || (s != [] && r[0] == s[0])
  {
    if s == [] || le(x, s[0]) then [x] + s
    else
      var rest := InsertBy(x, s[1..], le);
      assert s == [s[0]] + s[1..];
      assert le(s[0], x);
      [s[0]] + rest
  }

  /** `ORDER BY`: the rows, rearranged so that each is ordered before the next. */
  function SortBy<T(!new)>(s: seq<T>, le: (T, T) -> bool): (r: seq<T>)
    requires Total(le)
    ensures multiset(r) == multiset(s)
    ensures SortedBy(r, le)
  {
    if s == [] then []
    else
      assert s == [s[0]] + s[1..];
      InsertBy(s[0], SortBy(s[1..], le), le)
  }

  /** A rearrangement has the same length and the same members. */
  lemma SameMultiset<T>(r: seq<T>, s: seq<T>)
    requires multiset(r) == multiset(s)
    ensures |r| == |s|
    ensures forall x :: x in r <==> x in s
  {
    assert |multiset(r)| == |multiset(s)|;
    forall x ensures x in r <==> x in s {
      assert x in r <==> x in multiset(r);
      assert x in s <==> x in multiset(s);
    }
  }

  /** `SELECT row(id) ... ORDER BY le`: one projected row per id, nothing else, each ordered before the next. */
  function OrderedScan<R(!new)>(ids: set<int>, row: int --> R, le: (R, R) -> bool): (r: seq<R>)
    requires forall id :: id in ids ==> row.requires(id)
    requires Total(le)
    ensures |r| == |ids|
    ensures forall x :: x in r <==> exists id :: id in ids && x == row(id)
    ensures SortedBy(r, le)
    ensures forall x :: multiset(r)[x] == |set id | id in ids && row(id) == x|
  {
    var rows := ScanRows(ids, row);
    var r := SortBy(rows, le);
    SameMultiset(r, rows);
    r
  }

  /**
   * `ORDER BY key LIMIT 1`: a row whose key is least, or None for no rows.
   * Among equal keys the earliest row in the scan is taken.
   */
  function FirstLeast<T>(s: seq<T>, key: T -> int): (r: Option<T>)
    ensures r.None? <==> s == []
    ensures r.Some? ==> r.value in s && forall i :: 0 <= i < |s| ==> key(r.value) <= key(s[i])
  {
    if s == [] then None
    else
      var rest := FirstLeast(s[1..], key);
      if rest.None? || key(s[0]) <= key(rest.value) then Some(s[0])
      else
        assert forall i :: 1 <= i < |s| ==> s[i] == s[1..][i - 1];
        rest
  }
}

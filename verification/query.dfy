/**
 The parts of SQL the ledger's queries use: a table scan, `WHERE`,
 `ORDER BY` and `LIMIT`.

 Rows are ordered by a sort key that follows SQLite's cross-type ordering:
 NULL sorts before every number, and numbers sort before text, which is
 compared character by character (BINARY collation). Rows with equal keys
 may come out in any order, so everything said about a sorted result is
 "ordered by the key and a permutation of the input".
 */
module Query {

  /** A column value as SQLite compares it. */
  datatype Key = Null | Num(x: real) | Str(t: string)

  datatype Direction = Asc | Desc

  /** Lexicographic order on strings: a prefix sorts first. */
  predicate TextLe(a: string, b: string)
    decreases |a|
  {
    if |a| == 0 then true
    else if |b| == 0 then false
    else if a[0] != b[0] then a[0] < b[0]
    else TextLe(a[1..], b[1..])
  }

  predicate KeyLe(a: Key, b: Key) {
    match (a, b)
    case (Null, _) => true
    case (_, Null) => false
    case (Num(x), Num(y)) => x <= y
    case (Num(_), Str(_)) => true
    case (Str(_), Num(_)) => false
    case (Str(s), Str(t)) => TextLe(s, t)
  }

  /** `a` may come before `b` in a result ordered in direction `dir`. */
  predicate Before(dir: Direction, a: Key, b: Key) {
    if dir == Asc then KeyLe(a, b) else KeyLe(b, a)
  }

  predicate SortedBy<T>(s: seq<T>, key: T -> Key, dir: Direction) {
    forall i, j :: 0 <= i < j < |s| ==> Before(dir, key(s[i]), key(s[j]))
  }

  lemma {:induction false} TextLeTotal(a: string, b: string)
    ensures TextLe(a, b) || TextLe(b, a)
    decreases |a|
  {
    if |a| > 0 && |b| > 0 && a[0] == b[0] {
      TextLeTotal(a[1..], b[1..]);
    }
  }

  lemma {:induction false} TextLeTrans(a: string, b: string, c: string)
    requires TextLe(a, b) && TextLe(b, c)
    ensures TextLe(a, c)
    decreases |a|
  {
    if |a| > 0 && |b| > 0 && |c| > 0 && a[0] == b[0] && b[0] == c[0] {
      TextLeTrans(a[1..], b[1..], c[1..]);
    }
  }

  lemma BeforeTotal(dir: Direction, a: Key, b: Key)
    ensures Before(dir, a, b) || Before(dir, b, a)
  {
    if a.Str? && b.Str? {
      TextLeTotal(a.t, b.t);
    }
  }

  lemma BeforeTrans(dir: Direction, a: Key, b: Key, c: Key)
    requires Before(dir, a, b) && Before(dir, b, c)
    ensures Before(dir, a, c)
  {
    if a.Str? && b.Str? && c.Str? {
      if dir == Asc {
        TextLeTrans(a.t, b.t, c.t);
      } else {
        TextLeTrans(c.t, b.t, a.t);
      }
    }
  }

  /** Inserts `x` into sorted `s` after every element that may precede it. */
  function Insert<T>(x: T, s: seq<T>, key: T -> Key, dir: Direction): (r: seq<T>)
    requires SortedBy(s, key, dir)
    ensures SortedBy(r, key, dir)
    ensures multiset(r) == multiset(s) + multiset{x}
    ensures |r| == |s| + 1
  {
    if |s| == 0 then [x]
    else if Before(dir, key(x), key(s[0])) then
      InsertAtFront(x, s, key, dir);
      [x] + s
    else
      BeforeTotal(dir, key(x), key(s[0]));
      var tail := Insert(x, s[1..], key, dir);
      assert s == [s[0]] + s[1..];
      HeadPrecedesInsert(x, s, tail, key, dir);
      [s[0]] + tail
  }

  lemma InsertAtFront<T>(x: T, s: seq<T>, key: T -> Key, dir: Direction)
    requires |s| > 0 && SortedBy(s, key, dir) && Before(dir, key(x), key(s[0]))
    ensures SortedBy([x] + s, key, dir)
  {
    var r := [x] + s;
    forall i, j | 0 <= i < j < |r|
      ensures Before(dir, key(r[i]), key(r[j]))
    {
      if i == 0 && j > 1 {
        BeforeTrans(dir, key(x), key(s[0]), key(s[j - 1]));
      }
    }
  }

  lemma HeadPrecedesInsert<T>(x: T, s: seq<T>, tail: seq<T>, key: T -> Key, dir: Direction)
    requires |s| > 0 && SortedBy(s, key, dir) && SortedBy(tail, key, dir)
    requires Before(dir, key(s[0]), key(x))
    requires multiset(tail) == multiset(s[1..]) + multiset{x}
    ensures SortedBy([s[0]] + tail, key, dir)
  {
    var r := [s[0]] + tail;
    forall i, j | 0 <= i < j < |r|
      ensures Before(dir, key(r[i]), key(r[j]))
    {
      if i == 0 {
        var y := tail[j - 1];
        assert y in multiset(tail);
        if y != x {
          assert y in multiset(s[1..]);
          var k :| 0 <= k < |s[1..]| && s[1..][k] == y;
          assert s[k + 1] == y;
        }
      }
    }
  }

  /** Insertion sort: the rows of `s`, ordered by `key` in direction `dir`. */
  function Sort<T>(s: seq<T>, key: T -> Key, dir: Direction): (r: seq<T>)
    ensures SortedBy(r, key, dir)
    ensures multiset(r) == multiset(s)
    ensures |r| == |s|
  {
    if |s| == 0 then []
    else
      assert s == [s[0]] + s[1..];
      Insert(s[0], Sort(s[1..], key, dir), key, dir)
  }

  /** SQL `LIMIT n`: the first `n` rows; a negative `n` means no limit. */
  function Limit<T>(s: seq<T>, n: int): (r: seq<T>)
    ensures n < 0 || |s| <= n ==> r == s
    ensures 0 <= n <= |s| ==> |r| == n
    ensures r <= s
  {
    if n < 0 || |s| <= n then s else s[..n]
  }

  /** `ORDER BY … LIMIT n` keeps the first rows in order: the kept rows are
      still ordered, and no row that was cut may precede a kept one. */
  lemma LimitKeepsFirst<T>(s: seq<T>, n: int, key: T -> Key, dir: Direction)
    requires SortedBy(s, key, dir)
    ensures SortedBy(Limit(s, n), key, dir)
    ensures forall x, y :: x in Limit(s, n) && y in s && y !in Limit(s, n) ==> Before(dir, key(x), key(y))
  {
    var r := Limit(s, n);
    forall x, y | x in r && y in s && y !in r
      ensures Before(dir, key(x), key(y))
    {
      var i :| 0 <= i < |r| && r[i] == x;
      var k :| 0 <= k < |s| && s[k] == y;
      assert r == s[..n];
      assert s[i] == x;
    }
  }

  /** The rows `LIMIT` keeps are rows of its input, none more often than
      there; and it cuts nothing unless it keeps exactly `n` rows. */
  lemma LimitPart<T>(s: seq<T>, n: int)
    ensures forall x :: x in s ==> multiset(Limit(s, n))[x] <= multiset(s)[x]
    ensures forall x :: x in Limit(s, n) ==> x in s
    ensures n < 0 || |Limit(s, n)| < n ==> Limit(s, n) == s
  {
    var r := Limit(s, n);
    assert s == r + s[|r|..];
    assert multiset(s) == multiset(r) + multiset(s[|r|..]);
  }

  /** SQL `WHERE keep(row)`: the rows of `s` that satisfy `keep`, in order. */
  function Filter<T>(s: seq<T>, keep: T -> bool): (r: seq<T>)
    ensures forall x :: x in r ==> x in s && keep(x)
    ensures forall x :: x in s ==> multiset(r)[x] == if keep(x) then multiset(s)[x] else 0
    ensures |r| <= |s|
  {
    if |s| == 0 then []
    else
      assert s == [s[0]] + s[1..];
      var rest := Filter(s[1..], keep);
      if keep(s[0]) then [s[0]] + rest else rest
  }

  /** A set of row ids is empty or has a member. */
  lemma EmptyOrInhabited(ids: set<int>)
    ensures ids == {} || exists id :: id in ids
  {
    if !(exists id :: id in ids) {
      assert ids == {};
    }
  }

  /** A scan of a table keyed by row id: every row exactly once, in an
      order nothing may rely on. */
  method Scan<V>(table: map<int, V>) returns (rows: seq<(int, V)>)
    ensures forall e :: e in rows ==> e.0 in table && table[e.0] == e.1
    ensures forall id :: id in table ==> multiset(rows)[(id, table[id])] == 1
    ensures |rows| == |table|
  {
    var remaining := table.Keys;
    rows := [];
    while remaining != {}
      invariant remaining <= table.Keys
      invariant |rows| + |remaining| == |table|
      invariant forall e :: e in rows ==> e.0 in table && e.0 !in remaining && table[e.0] == e.1
      invariant forall id :: id in table ==> multiset(rows)[(id, table[id])] == if id in remaining then 0 else 1
      decreases remaining
    {
      EmptyOrInhabited(remaining);
      var id :| id in remaining;
      rows := rows + [(id, table[id])];
      remaining := remaining - {id};
    }
  }

  /** `SELECT * FROM table ORDER BY key`: every row exactly once, ordered
      by `key` of the row's value. */
  method ScanSorted<V>(table: map<int, V>, key: V -> Key, dir: Direction) returns (rows: seq<(int, V)>)
    ensures forall e :: e in rows ==> e.0 in table && table[e.0] == e.1
    ensures forall id :: id in table ==> multiset(rows)[(id, table[id])] == 1
    ensures |rows| == |table|
    ensures forall i, j :: 0 <= i < j < |rows| ==> Before(dir, key(rows[i].1), key(rows[j].1))
  {
    var all := Scan(table);
    var rowKey := (e: (int, V)) => key(e.1);
    rows := Sort(all, rowKey, dir);
    forall e | e in rows ensures e.0 in table && table[e.0] == e.1 {
      assert e in multiset(all);
    }
    forall i, j | 0 <= i < j < |rows| ensures Before(dir, key(rows[i].1), key(rows[j].1)) {
      assert Before(dir, rowKey(rows[i]), rowKey(rows[j]));
    }
  }
}

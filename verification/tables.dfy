/** Generic storage helpers: an AUTO_INCREMENT table keyed by integer
    primary keys, the least key of a finite set (standing in for the
    "first row" a single-row query returns) and the keys in ascending order
    (the order a full scan returns rows in). */
module Tables {

  datatype Option<T> = None | Some(value: T)

  /** A relational table whose primary key is issued by an AUTO_INCREMENT
      counter: `autoIncrement` is the key the next insert receives. */
  datatype Table<T> = Table(rows: map<int, T>, autoIncrement: int)

  /** Every stored key was issued by the counter, which starts at 1. */
  predicate KeysIssued<T>(t: Table<T>)
  {
    1 <= t.autoIncrement && forall k :: k in t.rows ==> 1 <= k < t.autoIncrement
  }

  /** INSERT: the row is stored under the next counter value. */
  function Insert<T>(t: Table<T>, row: T): (t': Table<T>)
    ensures KeysIssued(t) ==> t.autoIncrement !in t.rows && KeysIssued(t')
    ensures t'.rows.Keys == t.rows.Keys + {t.autoIncrement}
    ensures t.autoIncrement in t'.rows && t'.rows[t.autoIncrement] == row
    ensures forall k :: k in t.rows && k != t.autoIncrement ==> t'.rows[k] == t.rows[k]
  {
    Table(t.rows[t.autoIncrement := row], t.autoIncrement + 1)
  }

  /** The least key of a non-empty set, found by removing one key and
      comparing it with the least of the rest. */
  lemma {:induction false} LeastWitness(ks: set<int>) returns (m: int)
    requires ks != {}
    ensures m in ks && forall k :: k in ks ==> m <= k
    decreases |ks|
  {
    var x := PickKey(ks);
    var others := ks - {x};
    if others == {} {
      m := x;
      assert forall k :: k in ks ==> k == x || k in others;
    } else {
      var m' := LeastWitness(others);
      m := if x < m' then x else m';
      forall k | k in ks
        ensures m <= k
      {
        if k != x {
          assert k in others;
        }
      }
    }
  }

  lemma LeastExists(ks: set<int>)
    requires ks != {}
    ensures exists m :: m in ks && forall k :: k in ks ==> m <= k
  {
    var m := LeastWitness(ks);
  }

  /** A set that differs from the empty set has a member (by
      extensionality). */
  lemma NonEmptyHasMember(ks: set<int>)
    ensures ks != {} ==> exists k :: k in ks
  {
    if forall k :: k !in ks {
      assert ks == {};
    }
  }

  /** Some key of a non-empty set. */
  lemma PickKey(ks: set<int>) returns (x: int)
    requires ks != {}
    ensures x in ks
  {
    NonEmptyHasMember(ks);
    x :| x in ks;
  }

  /** The least element of a non-empty finite set of keys. */
  function Least(ks: set<int>): (m: int)
    requires ks != {}
    ensures m in ks
    ensures forall k :: k in ks ==> m <= k
  {
    LeastExists(ks);
    var m :| m in ks && forall k :: k in ks ==> m <= k;
    m
  }

  predicate Increasing(s: seq<int>)
  {
    forall i, j :: 0 <= i < j < |s| ==> s[i] < s[j]
  }

  /** Putting the least key in front of the rest, already in order, puts
      all keys in order. */
  lemma PrependLeast(ks: set<int>, m: int, rest: seq<int>)
    requires m in ks && forall k :: k in ks ==> m <= k
    requires |rest| == |ks - {m}|
    requires forall k :: k in ks - {m} <==> k in rest
    requires forall i :: 0 <= i < |rest| ==> rest[i] in ks - {m}
    requires Increasing(rest)
    ensures |[m] + rest| == |ks|
    ensures forall k :: k in ks <==> k in [m] + rest
    ensures forall i :: 0 <= i < |[m] + rest| ==> ([m] + rest)[i] in ks
    ensures Increasing([m] + rest)
  {
    var r := [m] + rest;
    forall i, j | 0 <= i < j < |r|
      ensures r[i] < r[j]
    {
      assert r[j] == rest[j - 1] && r[j] in ks - {m};
      if i > 0 {
        assert r[i] == rest[i - 1];
      }
    }
    forall k
      ensures k in ks <==> k in r
    {
      assert k in r <==> k == m || k in rest;
    }
  }

  /** The keys in ascending order, each exactly once. */
  function SortedKeys(ks: set<int>): (r: seq<int>)
    ensures |r| == |ks|
    ensures forall k :: k in ks <==> k in r
    ensures forall i :: 0 <= i < |r| ==> r[i] in ks
    ensures Increasing(r)
    decreases |ks|
  {
    if ks == {} then []
    else
      var m := Least(ks);
      var rest := SortedKeys(ks - {m});
      PrependLeast(ks, m, rest);
      [m] + rest
  }

  /** No two keys hold the same row. */
  predicate Injective<T(==)>(rows: map<int, T>)
  {
    forall a, b :: a in rows && b in rows && a != b ==> rows[a] != rows[b]
  }

  predicate NoDuplicates<T(==)>(r: seq<T>)
  {
    forall i, j :: 0 <= i < j < |r| ==> r[i] != r[j]
  }

  /** Reading distinct rows at strictly increasing keys repeats none. */
  lemma ScanHasNoDuplicates<T>(rows: map<int, T>, ks: seq<int>, r: seq<T>)
    requires Injective(rows) && Increasing(ks) && |r| == |ks|
    requires forall i :: 0 <= i < |ks| ==> ks[i] in rows && r[i] == rows[ks[i]]
    ensures NoDuplicates(r)
  {
    forall i, j | 0 <= i < j < |r|
      ensures r[i] != r[j]
    {
      assert ks[i] < ks[j];
    }
  }

  /** Reading every key of a map yields exactly its stored rows. */
  lemma ScanCoversRows<T(!new)>(rows: map<int, T>, ks: seq<int>, r: seq<T>)
    requires forall k :: k in rows <==> k in ks
    requires |r| == |ks|
    requires forall i :: 0 <= i < |ks| ==> ks[i] in rows && r[i] == rows[ks[i]]
    ensures forall x :: x in r <==> x in rows.Values
  {
    forall k | k in rows
      ensures rows[k] in r
    {
      var i :| 0 <= i < |ks| && ks[i] == k;
      assert r[i] == rows[k];
    }
  }

  /** The rows a full-table scan returns: every stored row once, in
      ascending key order. */
  function ScanRows<T(==,!new)>(rows: map<int, T>): (r: seq<T>)
    ensures |r| == |rows|
    ensures forall x :: x in r <==> x in rows.Values
    ensures Injective(rows) ==> NoDuplicates(r)
  {
    var ks := SortedKeys(rows.Keys);
    var r := seq(|ks|, i requires 0 <= i < |ks| => rows[ks[i]]);
    ScanCoversRows(rows, ks, r);
    assert Injective(rows) ==> NoDuplicates(r) by {
      if Injective(rows) {
        ScanHasNoDuplicates(rows, ks, r);
      }
    }
    r
  }

  /** DELETE by primary key. */
  function Remove<T>(t: Table<T>, key: int): (t': Table<T>)
    ensures KeysIssued(t) ==> KeysIssued(t')
    ensures t'.rows.Keys == t.rows.Keys - {key}
    ensures forall k :: k in t'.rows ==> t'.rows[k] == t.rows[k]
  {
    Table(t.rows - {key}, t.autoIncrement)
  }

  /** UPDATE of one existing row by primary key. */
  function Replace<T>(t: Table<T>, key: int, row: T): (t': Table<T>)
    requires key in t.rows
    ensures KeysIssued(t) ==> KeysIssued(t')
    ensures t'.rows.Keys == t.rows.Keys
    ensures t'.rows[key] == row
    ensures forall k :: k in t.rows && k != key ==> t'.rows[k] == t.rows[k]
  {
    Table(t.rows[key := row], t.autoIncrement)
  }
}

/** `groupby(keys).size()` as the callbacks use it: one row per distinct key
    with the number of records carrying it, rows in ascending key order,
    zero-count keys never emitted (the model also uses this table for
    `value_counts()`, whose rows are ordered by count instead). A key is the tuple of
    grouping columns, here a sequence of strings compared as Python compares
    tuples of str. */
module Grouping {

  type Key = seq<string>

  /** Python's `<` on str: code point by code point, a proper prefix first. */
  predicate StrLess(a: string, b: string)
  {
    if a == [] then b != []
    else b != [] && (a[0] < b[0] || (a[0] == b[0] && StrLess(a[1..], b[1..])))
  }

  /** Python's `<` on tuples of str. */
  predicate KeyLess(a: Key, b: Key)
  {
    if a == [] then b != []
    else b != [] && (StrLess(a[0], b[0]) || (a[0] == b[0] && KeyLess(a[1..], b[1..])))
  }

  lemma {:induction false} StrLessIrreflexive(a: string)
    ensures !StrLess(a, a)
  {
    if a != [] {
      StrLessIrreflexive(a[1..]);
    }
  }

  lemma {:induction false} StrLessTransitive(a: string, b: string, c: string)
    requires StrLess(a, b) && StrLess(b, c)
    ensures StrLess(a, c)
  {
    if a != [] && a[0] == b[0] && b[0] == c[0] {
      StrLessTransitive(a[1..], b[1..], c[1..]);
    }
  }

  lemma {:induction false} StrLessTotal(a: string, b: string)
    requires a != b
    ensures StrLess(a, b) || StrLess(b, a)
  {
    if a != [] && b != [] && a[0] == b[0] {
      assert a == [a[0]] + a[1..] && b == [b[0]] + b[1..];
      StrLessTotal(a[1..], b[1..]);
    }
  }

  lemma {:induction false} KeyLessIrreflexive(a: Key)
    ensures !KeyLess(a, a)
  {
    if a != [] {
      StrLessIrreflexive(a[0]);
      KeyLessIrreflexive(a[1..]);
    }
  }

  lemma {:induction false} KeyLessTransitive(a: Key, b: Key, c: Key)
    requires KeyLess(a, b) && KeyLess(b, c)
    ensures KeyLess(a, c)
  {
    if a != [] {
      if StrLess(a[0], b[0]) && StrLess(b[0], c[0]) {
        StrLessTransitive(a[0], b[0], c[0]);
      } else if a[0] == b[0] && b[0] == c[0] {
        KeyLessTransitive(a[1..], b[1..], c[1..]);
      }
    }
  }

  lemma {:induction false} KeyLessTotal(a: Key, b: Key)
    requires a != b
    ensures KeyLess(a, b) || KeyLess(b, a)
  {
    if a != [] && b != [] {
      if a[0] == b[0] {
        assert a == [a[0]] + a[1..] && b == [b[0]] + b[1..];
        KeyLessTotal(a[1..], b[1..]);
      } else {
        StrLessTotal(a[0], b[0]);
      }
    }
  }

  /** One row of a grouped table: `reset_index(name='Count')`. */
  datatype Group = Group(key: Key, size: nat)

  /** Rows strictly ascending by key, hence every key at most once. */
  predicate Ascending(t: seq<Group>)
  {
    forall i, j :: 0 <= i < j < |t| ==> KeyLess(t[i].key, t[j].key)
  }

  /** No row has count zero. */
  predicate Positive(t: seq<Group>)
  {
    forall i :: 0 <= i < |t| ==> t[i].size >= 1
  }

  /** Every row key lies strictly above `b`. */
  predicate Above(b: Key, t: seq<Group>)
  {
    forall i :: 0 <= i < |t| ==> KeyLess(b, t[i].key)
  }

  /** The keys of the rows, in row order. */
  function KeysOf(t: seq<Group>): (ks: seq<Key>)
    ensures |ks| == |t| && forall i :: 0 <= i < |t| ==> ks[i] == t[i].key
  {
    if t == [] then [] else [t[0].key] + KeysOf(t[1..])
  }

  /** The count the table shows for `k`, or 0 when `k` has no row. */
  function SizeOf(t: seq<Group>, k: Key): nat
  {
    if t == [] then 0
    else if t[0].key == k then t[0].size
    else SizeOf(t[1..], k)
  }

  /** The sum of the Count column. */
  function TotalSize(t: seq<Group>): nat
  {
    if t == [] then 0 else t[0].size + TotalSize(t[1..])
  }

  /** How many of `keys` equal `k`. */
  function Occurrences(keys: seq<Key>, k: Key): nat
  {
    if keys == [] then 0
    else Occurrences(keys[..|keys| - 1], k) + (if keys[|keys| - 1] == k then 1 else 0)
  }

  /** Account for one more record with key `k`: increment its row, or insert
      a row of count 1 at its place in key order. */
  function Bump(t: seq<Group>, k: Key): seq<Group>
  {
    if t == [] then [Group(k, 1)]
    else if t[0].key == k then [Group(k, t[0].size + 1)] + t[1..]
    else if KeyLess(k, t[0].key) then [Group(k, 1)] + t
    else [t[0]] + Bump(t[1..], k)
  }

  /** The grouped table of a key column. */
  function GroupSizes(keys: seq<Key>): (t: seq<Group>)
    ensures Ascending(t) && Positive(t)
    ensures forall k :: SizeOf(t, k) == Occurrences(keys, k)
    ensures TotalSize(t) == |keys|
  {
    if keys == [] then []
    else
      var t := GroupSizes(keys[..|keys| - 1]);
      BumpSpec(t, keys[|keys| - 1]);
      Bump(t, keys[|keys| - 1])
  }

  // ---------------------------------------------------------------------
  // Lemmas
  // ---------------------------------------------------------------------

  lemma {:induction false} SizeOfAbove(b: Key, t: seq<Group>)
    requires Above(b, t)
    ensures SizeOf(t, b) == 0
  {
    if t != [] {
      KeyLessIrreflexive(b);
      SizeOfAbove(b, t[1..]);
    }
  }

  /** In an ascending table the count shown for a row's key is that row's. */
  lemma {:induction false} SizeOfAt(t: seq<Group>, i: nat)
    requires Ascending(t) && i < |t|
    ensures SizeOf(t, t[i].key) == t[i].size
  {
    if i > 0 {
      KeyLessIrreflexive(t[i].key);
      SizeOfAt(t[1..], i - 1);
    }
  }

  /** A key without a row shows count 0. */
  lemma {:induction false} SizeOfMissing(t: seq<Group>, k: Key)
    requires k !in KeysOf(t)
    ensures SizeOf(t, k) == 0
  {
    if t != [] {
      assert KeysOf(t)[0] == t[0].key;
      assert KeysOf(t[1..]) == KeysOf(t)[1..];
      SizeOfMissing(t[1..], k);
    }
  }

  /** Bump keeps the table ascending and positive, adds one to the count of
      `k` and to nothing else, and so adds one to the total. */
  lemma BumpSpec(t: seq<Group>, k: Key)
    requires Ascending(t) && Positive(t)
    ensures Ascending(Bump(t, k)) && Positive(Bump(t, k))
    ensures forall j :: SizeOf(Bump(t, k), j) == SizeOf(t, j) + (if j == k then 1 else 0)
    ensures TotalSize(Bump(t, k)) == TotalSize(t) + 1
  {
    BumpOrdered(t, k);
    BumpPositive(t, k);
    forall j ensures SizeOf(Bump(t, k), j) == SizeOf(t, j) + (if j == k then 1 else 0) {
      BumpSizes(t, k, j);
    }
    BumpTotal(t, k);
  }

  lemma {:induction false} BumpOrdered(t: seq<Group>, k: Key)
    requires Ascending(t)
    ensures Ascending(Bump(t, k))
    ensures forall b :: Above(b, t) && KeyLess(b, k) ==> Above(b, Bump(t, k))
  {
    var u := Bump(t, k);
    if t == [] {
    } else if t[0].key == k {
      assert u[1..] == t[1..];
    } else if KeyLess(k, t[0].key) {
      assert u[1..] == t;
      forall i, j | 0 <= i < j < |u| ensures KeyLess(u[i].key, u[j].key) {
        if i == 0 && j > 1 { KeyLessTransitive(k, t[0].key, t[j - 1].key); }
      }
    } else {
      KeyLessTotal(k, t[0].key);
      var rest := Bump(t[1..], k);
      BumpOrdered(t[1..], k);
      assert u == [t[0]] + rest;
      assert Above(t[0].key, t[1..]);
      assert Above(t[0].key, rest);
      forall i, j | 0 <= i < j < |u| ensures KeyLess(u[i].key, u[j].key) {
        if i > 0 { assert u[i] == rest[i - 1] && u[j] == rest[j - 1]; }
      }
      forall b | Above(b, t) && KeyLess(b, k) ensures Above(b, u) {
        assert Above(b, t[1..]);
      }
    }
  }

  lemma {:induction false} BumpPositive(t: seq<Group>, k: Key)
    requires Positive(t)
    ensures Positive(Bump(t, k))
  {
    if t != [] && t[0].key != k && !KeyLess(k, t[0].key) {
      BumpPositive(t[1..], k);
    }
  }

  lemma {:induction false} BumpSizes(t: seq<Group>, k: Key, j: Key)
    requires Ascending(t)
    ensures SizeOf(Bump(t, k), j) == SizeOf(t, j) + (if j == k then 1 else 0)
  {
    if t == [] {
    } else if t[0].key == k {
      assert Above(k, t[1..]);
      SizeOfAbove(k, t[1..]);
    } else if KeyLess(k, t[0].key) {
      forall i | 0 <= i < |t| ensures KeyLess(k, t[i].key) {
        if i > 0 { KeyLessTransitive(k, t[0].key, t[i].key); }
      }
      SizeOfAbove(k, t);
    } else {
      BumpSizes(t[1..], k, j);
    }
  }

  lemma {:induction false} BumpTotal(t: seq<Group>, k: Key)
    ensures TotalSize(Bump(t, k)) == TotalSize(t) + 1
  {
    if t != [] && t[0].key != k && !KeyLess(k, t[0].key) {
      BumpTotal(t[1..], k);
    }
  }

  /** A key has a row exactly when some record carries it. */
  lemma GroupSizesKeys(keys: seq<Key>, k: Key)
    ensures k in KeysOf(GroupSizes(keys)) <==> k in keys
  {
    var t := GroupSizes(keys);
    if k in KeysOf(t) {
      var i :| 0 <= i < |t| && KeysOf(t)[i] == k;
      SizeOfAt(t, i);
      OccurrencesPositive(keys, k);
    } else {
      SizeOfMissing(t, k);
      OccurrencesPositive(keys, k);
    }
  }

  lemma {:induction false} OccurrencesPositive(keys: seq<Key>, k: Key)
    ensures Occurrences(keys, k) > 0 <==> k in keys
  {
    if keys != [] {
      var init := keys[..|keys| - 1];
      OccurrencesPositive(init, k);
      assert keys == init + [keys[|keys| - 1]];
    }
  }

  /** Counts over a concatenation add up. */
  lemma {:induction false} OccurrencesConcat(a: seq<Key>, b: seq<Key>, k: Key)
    ensures Occurrences(a + b, k) == Occurrences(a, k) + Occurrences(b, k)
  {
    if b != [] {
      assert (a + b)[..|a + b| - 1] == a + b[..|b| - 1];
      assert (a + b)[|a + b| - 1] == b[|b| - 1];
      OccurrencesConcat(a, b[..|b| - 1], k);
      var last := if b[|b| - 1] == k then 1 else 0;
      assert Occurrences(a + b, k) == Occurrences(a + b[..|b| - 1], k) + last;
      assert Occurrences(b, k) == Occurrences(b[..|b| - 1], k) + last;
    } else {
      assert a + b == a;
    }
  }

  /** The rows of an ascending table have pairwise distinct keys, so the
      table has as many rows as distinct keys. */
  lemma {:induction false} AscendingKeysDistinct(t: seq<Group>)
    requires Ascending(t)
    ensures |set i | 0 <= i < |t| :: t[i].key| == |t|
  {
    if t != [] {
      AscendingKeysDistinct(t[1..]);
      var rest := set i | 0 <= i < |t[1..]| :: t[1..][i].key;
      var all := set i | 0 <= i < |t| :: t[i].key;
      assert all == {t[0].key} + rest by {
        forall x | x in all ensures x in {t[0].key} + rest {
          var i :| 0 <= i < |t| && t[i].key == x;
          if i > 0 { assert t[1..][i - 1].key == x; }
        }
      }
      assert t[0].key !in rest by {
        forall i | 0 <= i < |t[1..]| ensures t[1..][i].key != t[0].key {
          KeyLessIrreflexive(t[0].key);
          assert KeyLess(t[0].key, t[i + 1].key);
        }
      }
    }
  }
}

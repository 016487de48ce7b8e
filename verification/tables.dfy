/** A relational table as the sequence of its rows in insertion order, and
    the handful of query shapes the stores use: `filter_by(...)`,
    `.one_or_none()`, `.delete()`, `session.add`, in-place attribute
    updates and `session.merge`.

    A key is a projection `key: R -> K` of a row. Tables do not enforce
    keys themselves: whether two rows may share a key is the invariant
    `Unique`, which each store's transitions are shown to preserve.
    Whenever a store calls `.one_or_none()` on a key that is not unique
    in the table, the model yields `Err(MultipleResultsFound)` as the
    relational layer would. */
module Tables {
  import opened Results

  /** What a store operation returns together with the table after it. */
  datatype Change<R, T> = Change(out: T, rows: seq<R>)

  /** The rows whose projection `f` equals `v`, in table order. */
  function Where<R(!new), K(==)>(t: seq<R>, f: R -> K, v: K): (s: seq<R>)
    ensures |s| <= |t|
    ensures forall x :: x in s <==> x in t && f(x) == v
  {
    if |t| == 0 then []
    else (if f(t[0]) == v then [t[0]] else []) + Where(t[1..], f, v)
  }

  /** The rows that survive a `.delete()` filtered on `f == v`. */
  function Without<R(!new), K(==)>(t: seq<R>, f: R -> K, v: K): (s: seq<R>)
    ensures |s| <= |t|
    ensures forall x :: x in s <==> x in t && f(x) != v
  {
    if |t| == 0 then []
    else (if f(t[0]) != v then [t[0]] else []) + Without(t[1..], f, v)
  }

  lemma {:induction false} WhereNone<R(!new), K>(t: seq<R>, f: R -> K, v: K)
    requires forall x :: x in t ==> f(x) != v
    ensures Where(t, f, v) == []
  {
    if |t| > 0 {
      assert t[0] in t;
      WhereNone(t[1..], f, v);
    }
  }

  /** Every row is either deleted or kept. */
  lemma {:induction false} DeletedCount<R(!new), K>(t: seq<R>, f: R -> K, v: K)
    ensures |Where(t, f, v)| + |Without(t, f, v)| == |t|
  {
    if |t| > 0 {
      DeletedCount(t[1..], f, v);
    }
  }

  /** `.filter_by(key == k).one_or_none()`. */
  function Get<R(!new), K(==)>(t: seq<R>, key: R -> K, k: K): (r: Result<Option<R>, DbError>)
    ensures r == Ok(None) <==> forall x :: x in t ==> key(x) != k
    ensures r.Ok? && r.value.Some? ==> r.value.value in t && key(r.value.value) == k
    ensures r.Err? <==> |Where(t, key, k)| > 1
    ensures r.Err? ==> r.error == MultipleResultsFound
  {
    var s := Where(t, key, k);
    if |s| == 0 then Ok(None)
    else
      assert s[0] in s;
      if |s| == 1 then Ok(Some(s[0])) else Err(MultipleResultsFound)
  }

  /** No two rows share a key. */
  predicate Unique<R(!new), K(==)>(t: seq<R>, key: R -> K)
  {
    forall i, j :: 0 <= i < j < |t| ==> key(t[i]) != key(t[j])
  }

  lemma UniqueCons<R(!new), K>(x: R, t: seq<R>, key: R -> K)
    ensures Unique([x] + t, key) <==> Unique(t, key) && forall y :: y in t ==> key(y) != key(x)
  {
    var s := [x] + t;
    if Unique(t, key) && forall y :: y in t ==> key(y) != key(x) {
      forall i, j | 0 <= i < j < |s|
        ensures key(s[i]) != key(s[j])
      {
        assert s[j] == t[j - 1];
        if i > 0 {
          assert s[i] == t[i - 1];
        } else {
          assert t[j - 1] in t;
        }
      }
    }
    if Unique(s, key) {
      forall i, j | 0 <= i < j < |t|
        ensures key(t[i]) != key(t[j])
      {
        assert s[i + 1] == t[i] && s[j + 1] == t[j];
      }
      forall y | y in t
        ensures key(y) != key(x)
      {
        var j :| 0 <= j < |t| && t[j] == y;
        assert s[0] == x && s[j + 1] == y;
      }
    }
  }

  lemma UniqueAppend<R(!new), K>(t: seq<R>, key: R -> K, row: R)
    ensures Unique(t, key) && (forall x :: x in t ==> key(x) != key(row)) ==> Unique(t + [row], key)
    ensures Unique(t + [row], key) ==> forall x :: x in t ==> key(x) != key(row)
  {
    var s := t + [row];
    if Unique(s, key) {
      forall x | x in t
        ensures key(x) != key(row)
      {
        var i :| 0 <= i < |t| && t[i] == x;
        assert s[i] == x && s[|t|] == row;
      }
    }
    if Unique(t, key) && forall x :: x in t ==> key(x) != key(row) {
      forall i, j | 0 <= i < j < |s|
        ensures key(s[i]) != key(s[j])
      {
        assert s[i] == t[i];
        if j == |t| {
          assert t[i] in t;
        } else {
          assert s[j] == t[j];
        }
      }
    }
  }

  /** A key occurs at most once in a table where keys are unique. */
  lemma {:induction false} UniqueWhere<R(!new), K>(t: seq<R>, key: R -> K, k: K)
    ensures Unique(t, key) ==> |Where(t, key, k)| <= 1
  {
    if |t| > 0 && Unique(t, key) {
      assert t == [t[0]] + t[1..];
      UniqueCons(t[0], t[1..], key);
      UniqueWhere(t[1..], key, k);
      if key(t[0]) == k {
        WhereNone(t[1..], key, k);
      }
    }
  }

  /** In a table with unique keys, `.one_or_none()` on a key never raises,
      and finds a row exactly when one with that key is present. */
  lemma UniqueGet<R(!new), K>(t: seq<R>, key: R -> K, x: R)
    ensures Unique(t, key) ==> Get(t, key, key(x)).Ok?
    ensures Unique(t, key) && x in t ==> Get(t, key, key(x)) == Ok(Some(x))
  {
    UniqueWhere(t, key, key(x));
    var s := Where(t, key, key(x));
    if x in t {
      assert x in s;
    }
  }

  /** Deleting rows keeps any projection unique that was unique before. */
  lemma {:induction false} WithoutUnique<R(!new), K, F>(t: seq<R>, key: R -> K, k: K, f: R -> F)
    ensures Unique(t, f) ==> Unique(Without(t, key, k), f)
  {
    if |t| > 0 && Unique(t, f) {
      assert t == [t[0]] + t[1..];
      UniqueCons(t[0], t[1..], f);
      WithoutUnique(t[1..], key, k, f);
      if key(t[0]) != k {
        UniqueCons(t[0], Without(t[1..], key, k), f);
      }
    }
  }

  /** Deleting rows never adds to what a filter selects. */
  lemma {:induction false} WhereWithoutShrinks<R(!new), K, F>(t: seq<R>, key: R -> K, k: K, f: R -> F, v: F)
    ensures |Where(Without(t, key, k), f, v)| <= |Where(t, f, v)|
  {
    if |t| > 0 {
      WhereWithoutShrinks(t[1..], key, k, f, v);
      WhereAppend(if key(t[0]) != k then [t[0]] else [], Without(t[1..], key, k), f, v);
    }
  }

  lemma {:induction false} WhereAppend<R(!new), K>(a: seq<R>, b: seq<R>, f: R -> K, v: K)
    ensures Where(a + b, f, v) == Where(a, f, v) + Where(b, f, v)
  {
    if |a| > 0 {
      var head := if f(a[0]) == v then [a[0]] else [];
      WhereAppend(a[1..], b, f, v);
      assert (a + b)[0] == a[0] && (a + b)[1..] == a[1..] + b;
      assert Where(a + b, f, v) == head + Where(a[1..] + b, f, v);
      assert Where(a, f, v) == head + Where(a[1..], f, v);
    } else {
      assert a + b == b;
    }
  }

  /** Deleting one key leaves the rows of every other key as they were. */
  lemma {:induction false} WhereWithout<R(!new), K>(t: seq<R>, key: R -> K, k: K, k2: K)
    requires k2 != k
    ensures Where(Without(t, key, k), key, k2) == Where(t, key, k2)
  {
    if |t| > 0 {
      WhereWithout(t[1..], key, k, k2);
      WhereAppend(if key(t[0]) != k then [t[0]] else [], Without(t[1..], key, k), key, k2);
    }
  }

  /** Every row with the key of `row` replaced by `row`: an in-place
      update of the row's non-key attributes. */
  function Overwrite<R(!new), K(==)>(t: seq<R>, key: R -> K, row: R): (s: seq<R>)
    ensures |s| == |t|
  {
    if |t| == 0 then []
    else [if key(t[0]) == key(row) then row else t[0]] + Overwrite(t[1..], key, row)
  }

  lemma {:induction false} OverwriteAt<R(!new), K>(t: seq<R>, key: R -> K, row: R, i: nat)
    requires i < |t|
    ensures key(t[i]) == key(row) ==> Overwrite(t, key, row)[i] == row
    ensures key(t[i]) != key(row) ==> Overwrite(t, key, row)[i] == t[i]
  {
    if i > 0 {
      OverwriteAt(t[1..], key, row, i - 1);
    }
  }

  lemma OverwriteUnique<R(!new), K>(t: seq<R>, key: R -> K, row: R)
    ensures Unique(t, key) ==> Unique(Overwrite(t, key, row), key)
    ensures (exists x :: x in t && key(x) == key(row)) ==> row in Overwrite(t, key, row)
  {
    var s := Overwrite(t, key, row);
    forall i | 0 <= i < |t|
      ensures key(s[i]) == key(t[i])
    {
      OverwriteAt(t, key, row, i);
    }
    if exists x :: x in t && key(x) == key(row) {
      var x :| x in t && key(x) == key(row);
      var i :| 0 <= i < |t| && t[i] == x;
      OverwriteAt(t, key, row, i);
    }
  }

  /** Overwriting the one row that has `row`'s key keeps a second key `f`
      unique exactly when no row of another key already has `f(row)`. */
  lemma OverwriteUniqueOther<R(!new), K, F>(t: seq<R>, key: R -> K, row: R, f: R -> F)
    requires Unique(t, key) && Unique(t, f)
    requires exists x :: x in t && key(x) == key(row)
    ensures Unique(Overwrite(t, key, row), f) <==> forall x :: x in t && key(x) != key(row) ==> f(x) != f(row)
  {
    var s := Overwrite(t, key, row);
    var x :| x in t && key(x) == key(row);
    var i :| 0 <= i < |t| && t[i] == x;
    forall j | 0 <= j < |t|
      ensures j == i ==> s[j] == row
      ensures j != i ==> s[j] == t[j] && key(t[j]) != key(row)
    {
      OverwriteAt(t, key, row, j);
      if j < i {
        assert key(t[j]) != key(t[i]);
      } else if j > i {
        assert key(t[i]) != key(t[j]);
      }
    }
    if forall y :: y in t && key(y) != key(row) ==> f(y) != f(row) {
      forall a, b | 0 <= a < b < |s|
        ensures f(s[a]) != f(s[b])
      {
        if a == i {
          assert t[b] in t;
        } else if b == i {
          assert t[a] in t;
        }
      }
    } else {
      var y :| y in t && key(y) != key(row) && f(y) == f(row);
      var j :| 0 <= j < |t| && t[j] == y;
      assert s[j] == y && s[i] == row;
      if j < i {
        assert f(s[j]) == f(s[i]);
      } else {
        assert f(s[i]) == f(s[j]);
      }
    }
  }

  lemma {:induction false} WhereOverwrite<R(!new), K>(t: seq<R>, key: R -> K, row: R, k2: K)
    requires k2 != key(row)
    ensures Where(Overwrite(t, key, row), key, k2) == Where(t, key, k2)
  {
    if |t| > 0 {
      WhereOverwrite(t[1..], key, row, k2);
    }
  }

  /** Overwriting rows that a filter does not select, with a row it does
      not select either, leaves the filter's result as it was. */
  lemma {:induction false} WhereOverwriteOther<R(!new), K, F>(t: seq<R>, key: R -> K, row: R, f: R -> F, v: F)
    requires f(row) != v
    requires forall x :: x in t && key(x) == key(row) ==> f(x) != v
    ensures Where(Overwrite(t, key, row), f, v) == Where(t, f, v)
  {
    if |t| > 0 {
      assert t[0] in t;
      WhereOverwriteOther(t[1..], key, row, f, v);
    }
  }

  /** Overwriting every row a filter selects with a row it does not
      select leaves the filter with nothing. */
  lemma {:induction false} WhereOverwriteClears<R(!new), K, F>(t: seq<R>, key: R -> K, row: R, f: R -> F, v: F)
    requires f(row) != v
    requires forall x :: x in t && f(x) == v ==> key(x) == key(row)
    ensures Where(Overwrite(t, key, row), f, v) == []
  {
    if |t| > 0 {
      assert t[0] in t;
      WhereOverwriteClears(t[1..], key, row, f, v);
    }
  }

  /** When only rows with the key of `row` could match `f(row)`, after
      overwriting them the filter selects one copy of `row` for each. */
  lemma {:induction false} WhereOverwriteOnly<R(!new), K, F>(t: seq<R>, key: R -> K, row: R, f: R -> F)
    requires forall x :: x in t && key(x) != key(row) ==> f(x) != f(row)
    ensures |Where(Overwrite(t, key, row), f, f(row))| == |Where(t, key, key(row))|
    ensures forall y :: y in Where(Overwrite(t, key, row), f, f(row)) ==> y == row
  {
    if |t| > 0 {
      assert t[0] in t;
      WhereOverwriteOnly(t[1..], key, row, f);
    }
  }

  /** Deleting a key leaves every other key's rows as they were. */
  lemma WithoutFrame<R(!new), K>(t: seq<R>, key: R -> K, k: K)
    ensures forall k2 :: k2 != k ==> Where(Without(t, key, k), key, k2) == Where(t, key, k2)
  {
    forall k2 | k2 != k
      ensures Where(Without(t, key, k), key, k2) == Where(t, key, k2)
    {
      WhereWithout(t, key, k, k2);
    }
  }

  /** Appending a row leaves every other key's rows as they were. */
  lemma AppendFrame<R(!new), K>(t: seq<R>, key: R -> K, row: R)
    ensures forall k2 :: k2 != key(row) ==> Where(t + [row], key, k2) == Where(t, key, k2)
  {
    forall k2 | k2 != key(row)
      ensures Where(t + [row], key, k2) == Where(t, key, k2)
    {
      WhereAppend(t, [row], key, k2);
      assert Where([row], key, k2) == [];
    }
  }

  /** Overwriting a key's rows leaves every other key's rows as they were. */
  lemma OverwriteFrame<R(!new), K>(t: seq<R>, key: R -> K, row: R)
    ensures forall k2 :: k2 != key(row) ==> Where(Overwrite(t, key, row), key, k2) == Where(t, key, k2)
  {
    forall k2 | k2 != key(row)
      ensures Where(Overwrite(t, key, row), key, k2) == Where(t, key, k2)
    {
      WhereOverwrite(t, key, row, k2);
    }
  }

  /** Appending a row whose key is absent makes it the key's only row. */
  lemma AppendFresh<R(!new), K>(t: seq<R>, key: R -> K, row: R)
    requires forall x :: x in t ==> key(x) != key(row)
    ensures Get(t + [row], key, key(row)) == Ok(Some(row))
    ensures Unique(t, key) ==> Unique(t + [row], key)
  {
    WhereNone(t, key, key(row));
    WhereAppend(t, [row], key, key(row));
    assert Where([row], key, key(row)) == [row];
    UniqueAppend(t, key, row);
  }

  // ---------------------------------------------------------------------
  // The transitions the stores are built from

  /** `.filter_by(key == k).delete()`: the number of rows deleted. */
  function Remove<R(!new), K(==,!new)>(t: seq<R>, key: R -> K, k: K): (c: Change<R, nat>)
    ensures c.out + |c.rows| == |t|
    ensures c.out == |Where(t, key, k)|
    ensures c.out > 0 <==> exists x :: x in t && key(x) == k
    ensures Unique(t, key) ==> c.out <= 1 && Unique(c.rows, key)
    ensures Get(c.rows, key, k) == Ok(None)
    ensures forall k2 :: k2 != k ==> Get(c.rows, key, k2) == Get(t, key, k2)
    ensures forall x :: x in c.rows <==> x in t && key(x) != k
  {
    DeletedCount(t, key, k);
    UniqueWhere(t, key, k);
    WithoutUnique(t, key, k, key);
    WithoutFrame(t, key, k);
    var s := Without(t, key, k);
    if |Where(t, key, k)| > 0 then
      assert Where(t, key, k)[0] in Where(t, key, k);
      Change(|Where(t, key, k)|, s)
    else
      Change(|Where(t, key, k)|, s)
  }

  /** `session.merge(row)` on the table's key: update the stored row in
      place if its key is present, otherwise insert it. */
  function Merge<R(!new), K(==,!new)>(t: seq<R>, key: R -> K, row: R): (s: seq<R>)
    ensures Unique(t, key) ==> Unique(s, key) && Get(s, key, key(row)) == Ok(Some(row))
    ensures forall x :: x in t && key(x) != key(row) ==> x in s
    ensures forall x :: x in s ==> x == row || (x in t && key(x) != key(row))
    ensures forall k2 :: k2 != key(row) ==> Get(s, key, k2) == Get(t, key, k2)
  {
    if |Where(t, key, key(row))| > 0 then
      assert Where(t, key, key(row))[0] in Where(t, key, key(row));
      OverwriteUnique(t, key, row);
      OverwriteMembers(t, key, row);
      OverwriteFrame(t, key, row);
      UniqueGet(Overwrite(t, key, row), key, row);
      Overwrite(t, key, row)
    else
      AppendFresh(t, key, row);
      AppendFrame(t, key, row);
      t + [row]
  }

  lemma OverwriteMembers<R(!new), K>(t: seq<R>, key: R -> K, row: R)
    ensures forall x :: x in t && key(x) != key(row) ==> x in Overwrite(t, key, row)
    ensures forall x :: x in Overwrite(t, key, row) ==> x == row || (x in t && key(x) != key(row))
  {
    var s := Overwrite(t, key, row);
    forall x | x in t && key(x) != key(row)
      ensures x in s
    {
      var i :| 0 <= i < |t| && t[i] == x;
      OverwriteAt(t, key, row, i);
    }
    forall x | x in s
      ensures x == row || (x in t && key(x) != key(row))
    {
      var i :| 0 <= i < |s| && s[i] == x;
      OverwriteAt(t, key, row, i);
    }
  }

  /** Delete every row with the key of `row`, then insert `row`. */
  function DeleteInsert<R(!new), K(==,!new)>(t: seq<R>, key: R -> K, row: R): (s: seq<R>)
    ensures Get(s, key, key(row)) == Ok(Some(row))
    ensures Unique(t, key) ==> Unique(s, key)
    ensures forall x :: x in s ==> x == row || (x in t && key(x) != key(row))
    ensures forall k2 :: k2 != key(row) ==> Get(s, key, k2) == Get(t, key, k2)
  {
    var kept := Without(t, key, key(row));
    WithoutUnique(t, key, key(row), key);
    WithoutFrame(t, key, key(row));
    AppendFresh(kept, key, row);
    AppendFrame(kept, key, row);
    kept + [row]
  }

  /** `if get(key): return None`, then `session.add(row)`: insert only
      when no row has the key (the access-control `add`). */
  function InsertIfAbsent<R(!new), K(==,!new)>(t: seq<R>, key: R -> K, row: R): (r: Result<Change<R, Option<R>>, DbError>)
    ensures r.Err? <==> Get(t, key, key(row)).Err?
    ensures r.Ok? && r.value.out.None? ==> r.value.rows == t && Get(t, key, key(row)).value.Some?
    ensures r.Ok? && r.value.out.Some? ==>
      r.value.out.value == row && Get(t, key, key(row)) == Ok(None)
      && Get(r.value.rows, key, key(row)) == Ok(Some(row))
    ensures Unique(t, key) ==> r.Ok? && Unique(r.value.rows, key)
    ensures r.Ok? ==> forall k2 :: k2 != key(row) ==> Get(r.value.rows, key, k2) == Get(t, key, k2)
  {
    UniqueWhere(t, key, key(row));
    match Get(t, key, key(row))
    case Err(e) => Err(e)
    case Ok(Some(_)) => Ok(Change(None, t))
    case Ok(None) =>
      AppendFresh(t, key, row);
      AppendFrame(t, key, row);
      Ok(Change(Some(row), t + [row]))
  }

  /** `if get(key) is not None: remove(key)`, then `session.add(row)`:
      replace whatever the key held by `row`. */
  function Replace<R(!new), K(==,!new)>(t: seq<R>, key: R -> K, row: R): (r: Result<Change<R, R>, DbError>)
    ensures r.Err? <==> Get(t, key, key(row)).Err?
    ensures r.Ok? ==> r.value.out == row && Get(r.value.rows, key, key(row)) == Ok(Some(row))
    ensures r.Ok? ==> forall x :: x in r.value.rows ==> x == row || (x in t && key(x) != key(row))
    ensures Unique(t, key) ==> r.Ok? && Unique(r.value.rows, key)
    ensures r.Ok? ==> forall k2 :: k2 != key(row) ==> Get(r.value.rows, key, k2) == Get(t, key, k2)
  {
    UniqueWhere(t, key, key(row));
    match Get(t, key, key(row))
    case Err(e) => Err(e)
    case Ok(Some(_)) => Ok(Change(row, DeleteInsert(t, key, row)))
    case Ok(None) =>
      AppendFresh(t, key, row);
      AppendFrame(t, key, row);
      Ok(Change(row, t + [row]))
  }

  /** `get(key)`, then update the found row in place or add `row`. */
  function Upsert<R(!new), K(==,!new)>(t: seq<R>, key: R -> K, row: R): (r: Result<Change<R, R>, DbError>)
    ensures r.Err? <==> Get(t, key, key(row)).Err?
    ensures r.Ok? ==> r.value.out == row && Get(r.value.rows, key, key(row)) == Ok(Some(row))
    ensures r.Ok? ==> forall x :: x in r.value.rows ==> x == row || (x in t && key(x) != key(row))
    ensures Unique(t, key) ==> r.Ok? && Unique(r.value.rows, key)
    ensures r.Ok? ==> forall k2 :: k2 != key(row) ==> Get(r.value.rows, key, k2) == Get(t, key, k2)
  {
    UniqueWhere(t, key, key(row));
    match Get(t, key, key(row))
    case Err(e) => Err(e)
    case Ok(None) =>
      AppendFresh(t, key, row);
      Ok(Change(row, Merge(t, key, row)))
    case Ok(Some(_)) =>
      OverwriteGet(t, key, row);
      Ok(Change(row, Merge(t, key, row)))
  }

  /** Where the key occurs exactly once, overwriting it leaves that one row. */
  lemma OverwriteGet<R(!new), K>(t: seq<R>, key: R -> K, row: R)
    requires |Where(t, key, key(row))| == 1
    ensures Get(Overwrite(t, key, row), key, key(row)) == Ok(Some(row))
  {
    var x := Where(t, key, key(row))[0];
    assert x in Where(t, key, key(row));
    var s := Overwrite(t, key, row);
    var i :| 0 <= i < |t| && t[i] == x;
    OverwriteAt(t, key, row, i);
    OverwriteKeys(t, key, row, key(row));
    assert s[i] == row && row in s;
    var w := Where(s, key, key(row));
    assert row in w;
    assert w == [w[0]] && w[0] == row;
  }

  /** Overwriting keeps how many rows each key has. */
  lemma {:induction false} OverwriteKeys<R(!new), K>(t: seq<R>, key: R -> K, row: R, k: K)
    ensures |Where(Overwrite(t, key, row), key, k)| == |Where(t, key, k)|
  {
    if |t| > 0 {
      OverwriteKeys(t[1..], key, row, k);
    }
  }

  // ---------------------------------------------------------------------
  // Repeating a write

  /** Whatever `Get` finds is the only row with its key. */
  lemma GetOnly<R(!new), K>(t: seq<R>, key: R -> K, k: K)
    requires Get(t, key, k).Ok? && Get(t, key, k).value.Some?
    ensures forall x :: x in t && key(x) == k ==> x == Get(t, key, k).value.value
  {
    var s := Where(t, key, k);
    var y := Get(t, key, k).value.value;
    assert y in s;
    forall x | x in t && key(x) == k
      ensures x == y
    {
      assert x in s;
    }
  }

  /** Overwriting with a row that every row of its key already equals
      changes nothing. */
  lemma {:induction false} OverwriteSame<R(!new), K>(t: seq<R>, key: R -> K, row: R)
    requires forall x :: x in t && key(x) == key(row) ==> x == row
    ensures Overwrite(t, key, row) == t
  {
    if |t| > 0 {
      assert t[0] in t;
      OverwriteSame(t[1..], key, row);
    }
  }

  lemma {:induction false} WithoutNone<R(!new), K>(t: seq<R>, f: R -> K, v: K)
    requires forall x :: x in t ==> f(x) != v
    ensures Without(t, f, v) == t
  {
    if |t| > 0 {
      assert t[0] in t;
      WithoutNone(t[1..], f, v);
    }
  }

  /** Deleting `v` from rows none of which but the last has it removes
      exactly the last. */
  lemma {:induction false} WithoutLast<R(!new), K>(w: seq<R>, row: R, f: R -> K, v: K)
    requires forall x :: x in w ==> f(x) != v
    requires f(row) == v
    ensures Without(w + [row], f, v) == w
  {
    if |w| > 0 {
      assert w[0] in w;
      WithoutLast(w[1..], row, f, v);
      assert (w + [row])[0] == w[0] && (w + [row])[1..] == w[1..] + [row];
      assert w == [w[0]] + w[1..];
    } else {
      assert w + [row] == [row];
    }
  }

  /** Deleting a key and then inserting `row` again, when `row` is all the
      table holds for its key, gives back the same table. */
  lemma DeleteInsertAgain<R(!new), K(!new)>(w: seq<R>, key: R -> K, row: R)
    requires forall x :: x in w ==> key(x) != key(row)
    ensures DeleteInsert(w + [row], key, row) == w + [row]
  {
    WithoutLast(w, row, key, key(row));
  }

  /** An upsert repeated with the same row returns the same row and
      leaves the table as the first one left it. */
  lemma UpsertTwice<R(!new), K(!new)>(t: seq<R>, key: R -> K, row: R)
    requires Upsert(t, key, row).Ok?
    ensures Upsert(Upsert(t, key, row).value.rows, key, row) == Upsert(t, key, row)
  {
    var s := Upsert(t, key, row).value.rows;
    GetOnly(s, key, key(row));
    assert row in Where(s, key, key(row));
    OverwriteSame(s, key, row);
  }

  /** A replace repeated with the same row returns the same row and leaves
      the table as the first one left it. */
  lemma ReplaceTwice<R(!new), K(!new)>(t: seq<R>, key: R -> K, row: R)
    requires Replace(t, key, row).Ok?
    ensures Replace(Replace(t, key, row).value.rows, key, row) == Replace(t, key, row)
  {
    var w := Without(t, key, key(row));
    if Get(t, key, key(row)).value.None? {
      WithoutNone(t, key, key(row));
    }
    assert Replace(t, key, row).value.rows == w + [row];
    DeleteInsertAgain(w, key, row);
  }
}

/** daily_sleep_quality_table and the six queries of the data-access object,
    as pure functions over the table's rows. */
module SleepDatabaseDao {
  import opened Entity

  /** The primary keys present among `rows`. */
  function Ids(rows: seq<SleepNight>): set<int>
  {
    set i | 0 <= i < |rows| :: rows[i].nightId
  }

  /** No two rows share a primary key. */
  predicate UniqueIds(rows: seq<SleepNight>)
  {
    forall i, j :: 0 <= i < j < |rows| ==> rows[i].nightId != rows[j].nightId
  }

  /** The table: its rows in storage order, keyed by `nightId`. The order
      carries no meaning; every query below is insensitive to it except
      through the primary key. */
  type Table = rows: seq<SleepNight> | UniqueIds(rows) witness []

  /** A sequence is ordered by `nightId`, strictly descending. */
  predicate Descending(rows: seq<SleepNight>)
  {
    forall i, j :: 0 <= i < j < |rows| ==> rows[i].nightId > rows[j].nightId
  }

  // ---------------------------------------------------------------------
  // Row-level helpers on plain sequences

  /** The position of a row carrying the largest key. */
  function NewestIndex(rows: seq<SleepNight>): (k: nat)
    requires |rows| > 0
    ensures k < |rows|
    ensures forall i :: 0 <= i < |rows| ==> rows[i].nightId <= rows[k].nightId
  {
    if |rows| == 1 then 0
    else
      var j := NewestIndex(rows[1..]);
      assert forall i :: 1 <= i < |rows| ==> rows[i] == rows[1..][i - 1];
      if rows[0].nightId > rows[j + 1].nightId then 0 else j + 1
  }

  /** `rows` with every row keyed `n.nightId` replaced by `n`. */
  function Overwrite(rows: seq<SleepNight>, n: SleepNight): (r: seq<SleepNight>)
    ensures |r| == |rows|
    ensures forall i :: 0 <= i < |rows| ==>
      r[i] == (if rows[i].nightId == n.nightId then n else rows[i])
  {
    if |rows| == 0 then []
    else [if rows[0].nightId == n.nightId then n else rows[0]] + Overwrite(rows[1..], n)
  }

  // ---------------------------------------------------------------------
  // Facts about removing the newest row

  /** The rows other than the one at `k`, in storage order. */
  function Drop(rows: seq<SleepNight>, k: nat): (rest: seq<SleepNight>)
    requires k < |rows|
    ensures |rest| == |rows| - 1
    ensures forall i :: 0 <= i < |rest| ==> rest[i] == rows[if i < k then i else i + 1]
    ensures multiset(rows) == multiset{rows[k]} + multiset(rest)
  {
    assert rows == rows[..k] + [rows[k]] + rows[k + 1..];
    rows[..k] + rows[k + 1..]
  }

  /** Dropping a row keeps the keys unique. */
  lemma DropKeepsKeysUnique(t: Table, k: nat)
    requires k < |t|
    ensures UniqueIds(Drop(t, k))
  {
  }

  /** Once the newest row is dropped, every remaining key lies below its
      key. */
  lemma DropNewestLeavesSmallerKeys(t: Table, k: nat)
    requires 0 < |t| && k == NewestIndex(t)
    ensures forall x :: x in Drop(t, k) ==> x.nightId < t[k].nightId
  {
  }

  // ---------------------------------------------------------------------
  // The data-access object

  /** `@Insert`: adds `night` as a new row. Fails, leaving the table as it
      was, when a row with the same key already exists. */
  function Insert(t: Table, night: SleepNight): (r: Result<Table>)
    ensures r.Ok? <==> night.nightId !in Ids(t)
    ensures r.Ok? ==> |r.value| == |t| + 1
    ensures r.Ok? ==> forall i :: 0 <= i < |t| ==> r.value[i] == t[i]
    ensures r.Ok? ==> Get(r.value, night.nightId) == Some(night)
    ensures r.Ok? ==> forall key :: key != night.nightId ==> Get(r.value, key) == Get(t, key)
  {
    if night.nightId in Ids(t) then Err(PrimaryKeyConflict)
    else
      var rows := t + [night];
      IdsAppend(t, night);
      var r: Table := rows;
      GetIsUnique(r, |t|);
      assert forall key :: key != night.nightId ==>
        (key in Ids(r) <==> key in Ids(t));
      Ok(r)
  }

  /** `@Update`: overwrites the row whose key is `night.nightId` with
      `night`. When no such row exists nothing changes. */
  function Update(t: Table, night: SleepNight): (r: Table)
    ensures |r| == |t|
    ensures Ids(r) == Ids(t)
    ensures Get(r, night.nightId) ==
      (if night.nightId in Ids(t) then Some(night) else None)
    ensures forall key :: key != night.nightId ==> Get(r, key) == Get(t, key)
  {
    OverwriteTable(t, night);
    Overwrite(t, night)
  }

  /** Overwriting rows by key keeps the keys, hence the table, intact, and
      changes what `Get` answers for `night.nightId` alone. */
  lemma OverwriteTable(t: Table, night: SleepNight)
    ensures UniqueIds(Overwrite(t, night))
    ensures Ids(Overwrite(t, night)) == Ids(t)
    ensures Get(Overwrite(t, night), night.nightId) ==
      (if night.nightId in Ids(t) then Some(night) else None)
    ensures forall key :: key != night.nightId ==>
      Get(Overwrite(t, night), key) == Get(t, key)
  {
    var rows := Overwrite(t, night);
    assert forall i :: 0 <= i < |t| ==> rows[i].nightId == t[i].nightId;
    assert Ids(rows) == Ids(t) by {
      forall x | x in Ids(t) ensures x in Ids(rows) {
        var i :| 0 <= i < |t| && t[i].nightId == x;
        assert rows[i].nightId == x;
      }
    }
    var r: Table := rows;
    if night.nightId in Ids(t) {
      var i :| 0 <= i < |t| && t[i].nightId == night.nightId;
      GetIsUnique(r, i);
    }
    forall key | key != night.nightId && key in Ids(t)
      ensures Get(r, key) == Get(t, key)
    {
      var i :| 0 <= i < |t| && t[i].nightId == key;
      GetIsUnique(r, i);
      GetIsUnique(t, i);
    }
  }

  /** `get(key)`: the row whose key is `key`, or nothing. */
  function Get(t: Table, key: int): (r: Option<SleepNight>)
    ensures r.None? <==> key !in Ids(t)
    ensures r.Some? ==> r.value in t && r.value.nightId == key
  {
    if |t| == 0 then None
    else if t[0].nightId == key then Some(t[0])
    else
      assert Ids(t) == {t[0].nightId} + Ids(t[1..]);
      Get(t[1..], key)
  }

  /** The row found by `Get` is the only row carrying its key. */
  lemma GetIsUnique(t: Table, i: nat)
    requires i < |t|
    ensures Get(t, t[i].nightId) == Some(t[i])
  {
  }

  /** `clear()`: deletes every row. */
  function Clear(): (r: Table)
    ensures |r| == 0
    ensures GetTonight(r) == None
    ensures AllNights(r) == []
    ensures forall key :: Get(r, key) == None
  {
    []
  }

  /** `getTonight()`: the row with the largest key, or nothing when the
      table is empty. */
  function GetTonight(t: Table): (r: Option<SleepNight>)
    ensures r.None? <==> |t| == 0
    ensures r.Some? ==> r.value in t
    ensures r.Some? ==> forall i :: 0 <= i < |t| ==> t[i].nightId <= r.value.nightId
  {
    if |t| == 0 then None else Some(t[NewestIndex(t)])
  }

  /** The table without its newest row. */
  function WithoutNewest(t: Table): (rest: Table)
    requires |t| > 0
    ensures |rest| == |t| - 1
    ensures forall x :: x in rest ==> x.nightId < t[NewestIndex(t)].nightId
    ensures multiset(t) == multiset{t[NewestIndex(t)]} + multiset(rest)
  {
    var k := NewestIndex(t);
    DropKeepsKeysUnique(t, k);
    DropNewestLeavesSmallerKeys(t, k);
    Drop(t, k)
  }

  /** `getAllNights()`: every row, ordered by key, newest first. That the
      order is strictly descending is `AllNightsOrdersTheTable`. */
  function AllNights(t: Table): (r: seq<SleepNight>)
    ensures multiset(r) == multiset(t)
    decreases |t|
  {
    if |t| == 0 then []
    else [t[NewestIndex(t)]] + AllNights(WithoutNewest(t))
  }

  /** `getAllNights()` is a permutation of the table's rows, ordered by key
      strictly descending. */
  lemma {:induction false} AllNightsOrdersTheTable(t: Table)
    ensures multiset(AllNights(t)) == multiset(t)
    ensures Descending(AllNights(t))
    decreases |t|
  {
    if |t| > 0 {
      AllNightsOrdersTheTable(WithoutNewest(t));
      AllNightsUnfold(t);
      NewestFirst(t, AllNights(WithoutNewest(t)));
    }
  }

  /** Putting the newest row in front of an ordering of the other rows gives
      an ordering of the whole table. */
  lemma {:induction false} NewestFirst(t: Table, tail: seq<SleepNight>)
    requires 0 < |t|
    requires multiset(tail) == multiset(WithoutNewest(t))
    requires Descending(tail)
    ensures multiset([t[NewestIndex(t)]] + tail) == multiset(t)
    ensures Descending([t[NewestIndex(t)]] + tail)
  {
    var r := [t[NewestIndex(t)]] + tail;
    forall i, j | 0 <= i < j < |r|
      ensures r[i].nightId > r[j].nightId
    {
      if i == 0 {
        assert r[j] == tail[j - 1];
        assert r[j] in multiset(WithoutNewest(t));
      } else {
        assert r[i] == tail[i - 1] && r[j] == tail[j - 1];
      }
    }
  }

  /** Appending a row adds exactly its key. */
  lemma {:induction false} IdsAppend(rows: seq<SleepNight>, n: SleepNight)
    ensures Ids(rows + [n]) == Ids(rows) + {n.nightId}
  {
    var longer := rows + [n];
    forall x | x in Ids(rows) ensures x in Ids(longer) {
      var i :| 0 <= i < |rows| && rows[i].nightId == x;
      assert longer[i] == rows[i];
    }
    assert longer[|rows|] == n;
  }

  // ---------------------------------------------------------------------
  // How the queries relate

  /** `getTonight()` picks out the row with the largest key: any row whose
      key is at least every other key is that row. */
  lemma TonightIsTheMaxRow(t: Table, i: nat)
    requires i < |t|
    requires forall j :: 0 <= j < |t| ==> t[j].nightId <= t[i].nightId
    ensures GetTonight(t) == Some(t[i])
  {
  }

  /** The first night of `getAllNights()` is `getTonight()`. */
  lemma AllNightsStartsWithTonight(t: Table)
    requires |t| > 0
    ensures AllNights(t)[0] == GetTonight(t).value
  {
  }

  /** ORDER BY nightId DESC determines the result: any strictly descending
      arrangement of the table's rows is exactly `getAllNights()`. */
  lemma {:induction false} DescendingOrderIsUnique(t: Table, s: seq<SleepNight>)
    requires multiset(s) == multiset(t)
    requires Descending(s)
    ensures s == AllNights(t)
    decreases |t|
  {
    if |t| == 0 {
      assert |s| == |multiset(s)| == 0;
    } else {
      TailArrangesTheRest(t, s);
      DescendingOrderIsUnique(WithoutNewest(t), s[1..]);
      AllNightsUnfold(t);
      SplitHead(s);
    }
  }

  /** One step of `getAllNights()`: the newest row, then the other rows in
      order. */
  lemma AllNightsUnfold(t: Table)
    requires 0 < |t|
    ensures AllNights(t) == [t[NewestIndex(t)]] + AllNights(WithoutNewest(t))
  {
  }

  /** A non-empty sequence is its head followed by its tail. */
  lemma SplitHead(s: seq<SleepNight>)
    requires 0 < |s|
    ensures s == [s[0]] + s[1..]
  {
  }

  /** Behind the newest row, a descending arrangement of the table continues
      with a descending arrangement of the remaining rows. */
  lemma TailArrangesTheRest(t: Table, s: seq<SleepNight>)
    requires 0 < |t|
    requires multiset(s) == multiset(t)
    requires Descending(s)
    ensures 0 < |s| && s[0] == t[NewestIndex(t)]
    ensures multiset(s[1..]) == multiset(WithoutNewest(t))
    ensures Descending(s[1..])
  {
    var k := NewestIndex(t);
    HeadIsNewest(t, s);
    TailOfArrangement(s);
    CancelOne(multiset(t), t[k], multiset(WithoutNewest(t)));
  }

  /** Removing the first element of a descending sequence leaves a
      descending sequence of the other elements. */
  lemma TailOfArrangement(s: seq<SleepNight>)
    requires 0 < |s| && Descending(s)
    ensures multiset(s[1..]) == multiset(s) - multiset{s[0]}
    ensures Descending(s[1..])
  {
    assert s == [s[0]] + s[1..];
    forall i, j | 0 <= i < j < |s| - 1
      ensures s[1..][i].nightId > s[1..][j].nightId
    {
      assert s[1..][i] == s[i + 1] && s[1..][j] == s[j + 1];
    }
  }

  /** Multiset subtraction undoes adding one element. */
  lemma CancelOne(whole: multiset<SleepNight>, x: SleepNight, part: multiset<SleepNight>)
    requires whole == multiset{x} + part
    ensures part == whole - multiset{x}
  {
  }

  /** The first element of a descending arrangement of the rows is the
      newest row. */
  lemma HeadIsNewest(t: Table, s: seq<SleepNight>)
    requires 0 < |t|
    requires multiset(s) == multiset(t)
    requires Descending(s)
    ensures 0 < |s| && s[0] == t[NewestIndex(t)]
  {
    var k := NewestIndex(t);
    assert t[k] in multiset(s);
    assert forall m :: 0 <= m < |s| ==> s[m].nightId <= s[0].nightId;
    assert s[0] in multiset(t);
    var i :| 0 <= i < |t| && t[i] == s[0];
    assert t[i].nightId == t[k].nightId;
  }
}

/** One table of the relational store, seen as the sequence of its records in
    insertion order.  The three repositories share these semantics: lookup by
    id returns the first record with that id, update by id rewrites the fields
    of that record, delete by id removes it, create appends a record under an
    id the store has not handed out before. */
module Table {
  import opened Wrappers

  /** A stored record: the id the store generated and the fields the caller supplied. */
  datatype Row<D> = Row(id: int, data: D)

  predicate HasId<D>(rows: seq<Row<D>>, id: int)
  {
    exists i :: 0 <= i < |rows| && rows[i].id == id
  }

  /** No two records share an id (the id column is the primary key). */
  predicate UniqueIds<D>(rows: seq<Row<D>>)
  {
    forall i, j :: 0 <= i < j < |rows| ==> rows[i].id != rows[j].id
  }

  /** The table invariant: ids are unique, positive, and below the counter
      the store draws the next id from. */
  predicate WellFormed<D>(rows: seq<Row<D>>, nextId: int)
  {
    1 <= nextId && UniqueIds(rows) && forall i :: 0 <= i < |rows| ==> 1 <= rows[i].id < nextId
  }

  /** The position of the first record with the given id, if any. */
  function IndexOfId<D>(rows: seq<Row<D>>, id: int): (r: Option<nat>)
    ensures r.None? <==> !HasId(rows, id)
    ensures r.Some? ==> r.value < |rows| && rows[r.value].id == id
    ensures r.Some? ==> forall j :: 0 <= j < r.value ==> rows[j].id != id
  {
    if rows == [] then None
    else if rows[0].id == id then Some(0)
    else match IndexOfId(rows[1..], id)
      case None => None
      case Some(k) => Some(k + 1)
  }

  /** findFirst({ where: { id } }): the first record with that id, or null. */
  function FindById<D>(rows: seq<Row<D>>, id: int): (r: Option<Row<D>>)
    ensures r.None? <==> !HasId(rows, id)
    ensures r.Some? ==> r.value.id == id && r.value in rows
  {
    match IndexOfId(rows, id)
    case None => None
    case Some(k) => Some(rows[k])
  }

  /** update({ data, where: { id } }): every record with that id gets the new
      fields and keeps its id; all other records and the order stay as they were. */
  function Replace<D>(rows: seq<Row<D>>, id: int, d: D): (r: seq<Row<D>>)
    ensures |r| == |rows|
    ensures forall i :: 0 <= i < |rows| ==> r[i].id == rows[i].id
    ensures forall i :: 0 <= i < |rows| && rows[i].id == id ==> r[i].data == d
    ensures forall i :: 0 <= i < |rows| && rows[i].id != id ==> r[i] == rows[i]
  {
    if rows == [] then []
    else [if rows[0].id == id then Row(id, d) else rows[0]] + Replace(rows[1..], id, d)
  }

  /** delete({ where: { id } }): the records without that id, in their old order. */
  function Remove<D>(rows: seq<Row<D>>, id: int): (r: seq<Row<D>>)
    ensures |r| <= |rows|
    ensures !HasId(r, id)
    ensures forall i :: 0 <= i < |r| ==> r[i] in rows
    ensures forall i :: 0 <= i < |rows| && rows[i].id != id ==> rows[i] in r
  {
    if rows == [] then []
    else if rows[0].id == id then Remove(rows[1..], id)
    else [rows[0]] + Remove(rows[1..], id)
  }

  /** With unique ids, the lookup of a stored record's id returns exactly that record. */
  lemma FindByIdAt<D>(rows: seq<Row<D>>, k: int)
    requires UniqueIds(rows) && 0 <= k < |rows|
    ensures FindById(rows, rows[k].id) == Some(rows[k])
  {
    var r := IndexOfId(rows, rows[k].id);
    assert r.Some?;
    assert r.value == k;
  }

  /** Deleting an id that is absent leaves the table as it was. */
  lemma {:induction false} RemoveAbsent<D>(rows: seq<Row<D>>, id: int)
    requires !HasId(rows, id)
    ensures Remove(rows, id) == rows
  {
    if rows != [] {
      assert !HasId(rows[1..], id) by {
        forall i | 0 <= i < |rows[1..]| ensures rows[1..][i].id != id {
          assert rows[1..][i] == rows[i + 1];
        }
      }
      RemoveAbsent(rows[1..], id);
      assert rows == [rows[0]] + rows[1..];
    }
  }

  /** Dropping the first record keeps ids unique. */
  lemma TailUnique<D>(rows: seq<Row<D>>)
    requires UniqueIds(rows) && rows != []
    ensures UniqueIds(rows[1..])
  {
    var tail := rows[1..];
    forall i, j | 0 <= i < j < |tail| ensures tail[i].id != tail[j].id {
      assert tail[i] == rows[i + 1] && tail[j] == rows[j + 1];
    }
  }

  /** With unique ids, deleting the first record's id removes just that record. */
  lemma RemoveHead<D>(rows: seq<Row<D>>)
    requires UniqueIds(rows) && rows != []
    ensures Remove(rows, rows[0].id) == rows[1..]
  {
    var tail := rows[1..];
    assert !HasId(tail, rows[0].id) by {
      forall i | 0 <= i < |tail| ensures tail[i].id != rows[0].id {
        assert tail[i] == rows[i + 1];
      }
    }
    RemoveAbsent(tail, rows[0].id);
  }

  /** Cutting out position k of a sequence, seen from its tail. */
  lemma CutFromTail<D>(rows: seq<Row<D>>, k: int)
    requires 0 < k < |rows|
    ensures rows[..k] + rows[k + 1..] == [rows[0]] + (rows[1..][..k - 1] + rows[1..][k..])
  {
    assert rows[1..][..k - 1] == rows[1..k];
    assert rows[1..][k..] == rows[k + 1..];
    assert rows[..k] == [rows[0]] + rows[1..k];
  }

  /** With unique ids, deleting a stored record's id removes exactly that
      record and keeps the others in their order. */
  lemma {:induction false} RemoveAt<D>(rows: seq<Row<D>>, k: int)
    requires UniqueIds(rows) && 0 <= k < |rows|
    ensures Remove(rows, rows[k].id) == rows[..k] + rows[k + 1..]
  {
    if k == 0 {
      RemoveHead(rows);
    } else {
      TailUnique(rows);
      assert rows[0].id != rows[k].id;
      assert rows[1..][k - 1] == rows[k];
      RemoveAt(rows[1..], k - 1);
      CutFromTail(rows, k);
    }
  }

  /** Appending a record under a fresh id keeps the table invariant. */
  lemma AppendKeepsWellFormed<D>(rows: seq<Row<D>>, nextId: int, d: D)
    requires WellFormed(rows, nextId)
    ensures WellFormed(rows + [Row(nextId, d)], nextId + 1)
  {
    var s := rows + [Row(nextId, d)];
    forall i, j | 0 <= i < j < |s| ensures s[i].id != s[j].id {
      if j < |rows| {
        assert s[i] == rows[i] && s[j] == rows[j];
      } else {
        assert s[i] == rows[i];
      }
    }
  }

  /** Rewriting the fields of one id keeps the table invariant. */
  lemma ReplaceKeepsWellFormed<D>(rows: seq<Row<D>>, nextId: int, id: int, d: D)
    requires WellFormed(rows, nextId)
    ensures WellFormed(Replace(rows, id, d), nextId)
  {
  }

  /** Cutting one record out keeps ids unique. */
  lemma CutKeepsUnique<D>(rows: seq<Row<D>>, k: int)
    requires UniqueIds(rows) && 0 <= k < |rows|
    ensures UniqueIds(rows[..k] + rows[k + 1..])
  {
    var s := rows[..k] + rows[k + 1..];
    forall i | 0 <= i < |s| ensures s[i] == rows[if i < k then i else i + 1] {
    }
  }

  /** Deleting by id keeps ids unique. */
  lemma RemoveKeepsUnique<D>(rows: seq<Row<D>>, id: int)
    requires UniqueIds(rows)
    ensures UniqueIds(Remove(rows, id))
  {
    match IndexOfId(rows, id)
    case None =>
      RemoveAbsent(rows, id);
    case Some(k) =>
      RemoveAt(rows, k);
      CutKeepsUnique(rows, k);
  }

  /** Deleting by id keeps the table invariant. */
  lemma RemoveKeepsWellFormed<D>(rows: seq<Row<D>>, nextId: int, id: int)
    requires WellFormed(rows, nextId)
    ensures WellFormed(Remove(rows, id), nextId)
  {
    RemoveKeepsUnique(rows, id);
    var s := Remove(rows, id);
    forall i | 0 <= i < |s| ensures 1 <= s[i].id < nextId {
      assert s[i] in rows;
    }
  }

  /** Create then read: after appending a record under a fresh id, looking that
      id up returns exactly the record, and every other lookup is unchanged. */
  lemma FindAfterAppend<D>(rows: seq<Row<D>>, row: Row<D>, x: int)
    requires UniqueIds(rows) && !HasId(rows, row.id)
    ensures FindById(rows + [row], x) == if x == row.id then Some(row) else FindById(rows, x)
  {
    var s := rows + [row];
    assert UniqueIds(s) by {
      forall i, j | 0 <= i < j < |s| ensures s[i].id != s[j].id {
        if j < |rows| {
          assert s[i] == rows[i] && s[j] == rows[j];
        } else {
          assert s[i] == rows[i];
        }
      }
    }
    if x == row.id {
      FindByIdAt(s, |rows|);
    } else {
      match IndexOfId(rows, x)
      case None =>
        assert !HasId(s, x) by {
          forall i | 0 <= i < |s| ensures s[i].id != x {
            if i < |rows| { assert s[i] == rows[i]; }
          }
        }
      case Some(k) =>
        FindByIdAt(rows, k);
        assert s[k] == rows[k];
        FindByIdAt(s, k);
    }
  }

  /** Update then read: the updated id now reads back the new fields under the
      same id; every other lookup is unchanged. */
  lemma FindAfterReplace<D>(rows: seq<Row<D>>, id: int, d: D, x: int)
    requires UniqueIds(rows)
    ensures FindById(Replace(rows, id, d), x)
         == if x == id && HasId(rows, id) then Some(Row(id, d)) else FindById(rows, x)
  {
    var s := Replace(rows, id, d);
    match IndexOfId(rows, x)
    case None =>
      assert !HasId(s, x);
    case Some(k) =>
      FindByIdAt(rows, k);
      FindByIdAt(s, k);
  }

  /** Delete then read: the deleted id is gone; every other lookup is unchanged. */
  lemma FindAfterRemove<D>(rows: seq<Row<D>>, id: int, x: int)
    requires UniqueIds(rows)
    ensures FindById(Remove(rows, id), x) == if x == id then None else FindById(rows, x)
  {
    var s := Remove(rows, id);
    RemoveKeepsUnique(rows, id);
    if x != id {
      match IndexOfId(rows, x)
      case None =>
        assert !HasId(s, x) by {
          forall i | 0 <= i < |s| ensures s[i].id != x {
            assert s[i] in s;
          }
        }
      case Some(k) =>
        FindByIdAt(rows, k);
        assert rows[k] in s;
        var j :| 0 <= j < |s| && s[j] == rows[k];
        FindByIdAt(s, j);
    }
  }
}

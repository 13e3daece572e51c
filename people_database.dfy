/**
 * The Room `Person` table and its data access object `PersonDao`: a single
 * table whose integer primary key the database generates on insert.
 */
module PeopleDatabase {
  import opened Results

  /** A row of the table. An `id` of 0 asks the database to generate one. */
  datatype Person = Person(id: int, name: string, age: int)

  /** The id Room treats as "not set" on an auto-generated primary key. */
  const UNSET_ID: int := 0

  /** The row id Room returns from an insert that the conflict policy ignored. */
  const IGNORED_ROW_ID: int := -1

  // ----- rows as values: the meaning of the SQL statements -----

  predicate HasId(rows: seq<Person>, id: int) {
    exists i :: 0 <= i < |rows| && rows[i].id == id
  }

  /** The primary key constraint: no two rows share an id. */
  predicate DistinctIds(rows: seq<Person>) {
    forall i, j :: 0 <= i < j < |rows| ==> rows[i].id != rows[j].id
  }

  /** `... WHERE cond`: the rows that satisfy `cond`, in table order. */
  function Where(rows: seq<Person>, cond: Person -> bool): (r: seq<Person>)
    ensures forall p :: p in r <==> p in rows && cond(p)
    ensures |r| <= |rows|
  {
    if |rows| == 0 then []
    else if cond(rows[0]) then [rows[0]] + Where(rows[1..], cond)
    else Where(rows[1..], cond)
  }

  function IdIs(id: int): Person -> bool { (p: Person) => p.id == id }
  function IdIsNot(id: int): Person -> bool { (p: Person) => p.id != id }
  function NameIs(name: string): Person -> bool { (p: Person) => p.name == name }
  function NameIsNot(name: string): Person -> bool { (p: Person) => p.name != name }

  /** When every row satisfies the condition, the filter keeps the table as it is. */
  lemma {:induction false} WhereKeepsAll(rows: seq<Person>, cond: Person -> bool)
    requires forall i :: 0 <= i < |rows| ==> cond(rows[i])
    ensures Where(rows, cond) == rows
  {
    if |rows| > 0 {
      WhereKeepsAll(rows[1..], cond);
      assert [rows[0]] + rows[1..] == rows;
    }
  }

  /** A condition and its negation split the table: removed plus kept is everything. */
  lemma {:induction false} WherePartition(rows: seq<Person>, cond: Person -> bool, other: Person -> bool)
    requires forall p :: other(p) == !cond(p)
    ensures |Where(rows, cond)| + |Where(rows, other)| == |rows|
  {
    if |rows| > 0 {
      WherePartition(rows[1..], cond, other);
    }
  }

  /** Filtering keeps ids distinct. */
  lemma {:induction false} WhereDistinct(rows: seq<Person>, cond: Person -> bool)
    requires DistinctIds(rows)
    ensures DistinctIds(Where(rows, cond))
  {
    if |rows| > 0 {
      var tail := rows[1..];
      assert DistinctIds(tail) by {
        forall i, j | 0 <= i < j < |tail| ensures tail[i].id != tail[j].id {
          assert tail[i] == rows[i + 1] && tail[j] == rows[j + 1];
        }
      }
      WhereDistinct(tail, cond);
      var kept := Where(tail, cond);
      if cond(rows[0]) {
        forall k | 0 <= k < |kept| ensures kept[k].id != rows[0].id {
          assert kept[k] in tail;
          var j :| 0 <= j < |tail| && tail[j] == kept[k];
          assert tail[j] == rows[j + 1];
        }
      }
    }
  }

  /** With distinct ids, at most one row has a given id. */
  lemma {:induction false} WhereIdCount(rows: seq<Person>, id: int)
    requires DistinctIds(rows)
    ensures |Where(rows, IdIs(id))| == if HasId(rows, id) then 1 else 0
  {
    if |rows| > 0 {
      var tail := rows[1..];
      assert DistinctIds(tail) by {
        forall i, j | 0 <= i < j < |tail| ensures tail[i].id != tail[j].id {
          assert tail[i] == rows[i + 1] && tail[j] == rows[j + 1];
        }
      }
      WhereIdCount(tail, id);
      if rows[0].id == id {
        forall j | 0 <= j < |tail| ensures tail[j].id != id {
          assert tail[j] == rows[j + 1];
        }
        assert !HasId(tail, id);
      } else {
        assert HasId(rows, id) ==> HasId(tail, id) by {
          if HasId(rows, id) {
            var i :| 0 <= i < |rows| && rows[i].id == id;
            assert tail[i - 1] == rows[i];
          }
        }
        assert HasId(tail, id) ==> HasId(rows, id) by {
          if HasId(tail, id) {
            var i :| 0 <= i < |tail| && tail[i].id == id;
            assert rows[i + 1] == tail[i];
          }
        }
      }
    }
  }

  /**
   * `UPDATE ... WHERE id = item.id`: the row with `item`'s id becomes `item`,
   * every other row stays where and what it was.
   */
  function ReplaceById(rows: seq<Person>, item: Person): (r: seq<Person>)
    ensures |r| == |rows|
    ensures forall i :: 0 <= i < |rows| ==> r[i] == if rows[i].id == item.id then item else rows[i]
  {
    if |rows| == 0 then []
    else [if rows[0].id == item.id then item else rows[0]] + ReplaceById(rows[1..], item)
  }

  /** Replacing a row by one with the same id keeps ids distinct. */
  lemma ReplaceByIdDistinct(rows: seq<Person>, item: Person)
    requires DistinctIds(rows)
    ensures DistinctIds(ReplaceById(rows, item))
  {
    var r := ReplaceById(rows, item);
    forall i, j | 0 <= i < j < |r| ensures r[i].id != r[j].id {
      assert r[i].id == rows[i].id && r[j].id == rows[j].id;
    }
  }

  /** `SELECT * ... WHERE id = :id`, the first such row. */
  function Find(rows: seq<Person>, id: int): (r: Option<Person>)
    ensures r.Some? <==> HasId(rows, id)
    ensures r.Some? ==> r.value in rows && r.value.id == id
  {
    if |rows| == 0 then None
    else if rows[0].id == id then Some(rows[0])
    else
      var r := Find(rows[1..], id);
      assert HasId(rows, id) ==> HasId(rows[1..], id) by {
        if HasId(rows, id) {
          var i :| 0 <= i < |rows| && rows[i].id == id;
          assert rows[1..][i - 1] == rows[i];
        }
      }
      assert HasId(rows[1..], id) ==> HasId(rows, id) by {
        if HasId(rows[1..], id) {
          var i :| 0 <= i < |rows[1..]| && rows[1..][i].id == id;
          assert rows[i + 1] == rows[1..][i];
        }
      }
      r
  }

  /** Filtering an extended table filters the old rows, then the new one. */
  lemma {:induction false} WhereAppend(rows: seq<Person>, p: Person, cond: Person -> bool)
    ensures Where(rows + [p], cond) == Where(rows, cond) + (if cond(p) then [p] else [])
  {
    if |rows| == 0 {
      assert rows + [p] == [p];
      assert [p][1..] == [];
    } else {
      var q := rows + [p];
      assert q[0] == rows[0] && q[1..] == rows[1..] + [p];
      WhereAppend(rows[1..], p, cond);
      var tail := if cond(p) then [p] else [];
      if cond(rows[0]) {
        calc {
          Where(q, cond);
          [rows[0]] + Where(rows[1..] + [p], cond);
          [rows[0]] + (Where(rows[1..], cond) + tail);
          ([rows[0]] + Where(rows[1..], cond)) + tail;
        }
      }
    }
  }

  /** Deleting by the id of a freshly appended row gives back the table before the insert. */
  lemma DeleteUndoesAppend(rows: seq<Person>, p: Person)
    requires !HasId(rows, p.id)
    ensures Where(rows + [p], IdIsNot(p.id)) == rows
  {
    WhereAppend(rows, p, IdIsNot(p.id));
    WhereKeepsAll(rows, IdIsNot(p.id));
  }

  /** A freshly appended row is found by its id. */
  lemma FindAppended(rows: seq<Person>, p: Person)
    requires !HasId(rows, p.id)
    ensures Find(rows + [p], p.id) == Some(p)
  {
    assert (rows + [p])[|rows|].id == p.id;
  }

  /** After replacing the row with an item's id, that id finds the item. */
  lemma {:induction false} FindReplaced(rows: seq<Person>, item: Person)
    requires HasId(rows, item.id)
    ensures Find(ReplaceById(rows, item), item.id) == Some(item)
  {
    var r := ReplaceById(rows, item);
    if rows[0].id != item.id {
      var i :| 0 <= i < |rows| && rows[i].id == item.id;
      assert rows[1..][i - 1] == rows[i];
      FindReplaced(rows[1..], item);
      assert r == [rows[0]] + ReplaceById(rows[1..], item);
      assert r[1..] == ReplaceById(rows[1..], item);
    }
  }

  /** After deleting by an id, that id finds nothing. */
  lemma FindDeleted(rows: seq<Person>, id: int)
    ensures Find(Where(rows, IdIsNot(id)), id) == None
  {
  }

  function Max(a: int, b: int): int {
    if a < b then b else a
  }

  /**
   * The `Person` table behind `PersonDao`. `nextId` is the id the next
   * auto-generated insert receives: one more than the largest id the table
   * has ever held, so an id is never handed out twice.
   */
  class PersonDao {
    var rows: seq<Person>
    var nextId: int

    ghost predicate Valid()
      reads this
    {
      1 <= nextId &&
      DistinctIds(rows) &&
      forall i :: 0 <= i < |rows| ==> rows[i].id != UNSET_ID && rows[i].id < nextId
    }

    /** An empty table whose first generated id is 1. */
    constructor ()
      ensures Valid()
      ensures rows == [] && nextId == 1
    {
      rows := [];
      nextId := 1;
    }

    /**
     * `@Insert(onConflict = IGNORE)`: an item with id 0 is stored under a
     * fresh generated id; an item with an explicit id is stored as it is,
     * unless a row already holds that id, in which case nothing changes and
     * -1 is returned. Returns the row id of the stored row.
     */
    method Insert(item: Person) returns (rowId: int)
      requires Valid()
      modifies this
      ensures Valid()
      ensures old(nextId) <= nextId
      ensures item.id == UNSET_ID ==>
        rowId == old(nextId) && rowId >= 1 && !HasId(old(rows), rowId) &&
        rows == old(rows) + [item.(id := rowId)] && nextId == old(nextId) + 1
      ensures item.id != UNSET_ID && HasId(old(rows), item.id) ==>
        rowId == IGNORED_ROW_ID && rows == old(rows) && nextId == old(nextId)
      ensures item.id != UNSET_ID && !HasId(old(rows), item.id) ==>
        rowId == item.id && rows == old(rows) + [item] && nextId == Max(old(nextId), item.id + 1)
    {
      if item.id == UNSET_ID {
        rowId := nextId;
        AppendFresh(rows, item.(id := rowId), nextId + 1);
        rows := rows + [item.(id := rowId)];
        nextId := nextId + 1;
      } else if HasId(rows, item.id) {
        rowId := IGNORED_ROW_ID;
      } else {
        rowId := item.id;
        AppendFresh(rows, item, Max(nextId, item.id + 1));
        rows := rows + [item];
        nextId := Max(nextId, item.id + 1);
      }
    }

    /** `@Delete`: removes the row whose id is `item.id`; other fields of `item` are ignored. */
    method Delete(item: Person) returns (count: nat)
      requires Valid()
      modifies this
      ensures Valid() && nextId == old(nextId)
      ensures rows == Where(old(rows), IdIsNot(item.id))
      ensures count == if HasId(old(rows), item.id) then 1 else 0
    {
      count := DeleteById(item.id);
    }

    /**
     * `DELETE FROM Person WHERE id = :id`. The provider calls this member,
     * which the DAO interface does not declare; it is given the meaning of
     * a delete by primary key.
     */
    method DeleteById(id: int) returns (count: nat)
      requires Valid()
      modifies this
      ensures Valid() && nextId == old(nextId)
      ensures rows == Where(old(rows), IdIsNot(id))
      ensures count == if HasId(old(rows), id) then 1 else 0
      ensures !HasId(old(rows), id) ==> rows == old(rows)
    {
      var kept := Where(rows, IdIsNot(id));
      WherePartition(rows, IdIs(id), IdIsNot(id));
      WhereIdCount(rows, id);
      WhereDistinct(rows, IdIsNot(id));
      if !HasId(rows, id) {
        WhereKeepsAll(rows, IdIsNot(id));
      }
      KeptRowsValid(rows, kept, nextId);
      count := |rows| - |kept|;
      rows := kept;
    }

    /** `DELETE FROM Person WHERE name = :name`: returns how many rows went. */
    method DeleteByName(name: string) returns (count: nat)
      requires Valid()
      modifies this
      ensures Valid() && nextId == old(nextId)
      ensures rows == Where(old(rows), NameIsNot(name))
      ensures count == |Where(old(rows), NameIs(name))|
      ensures count + |rows| == |old(rows)|
    {
      var kept := Where(rows, NameIsNot(name));
      WherePartition(rows, NameIs(name), NameIsNot(name));
      WhereDistinct(rows, NameIsNot(name));
      KeptRowsValid(rows, kept, nextId);
      count := |rows| - |kept|;
      rows := kept;
    }

    /**
     * `@Update`: the row with `item`'s id becomes `item` and 1 is returned;
     * with no such row nothing changes and 0 is returned.
     */
    method Update(item: Person) returns (count: nat)
      requires Valid()
      modifies this
      ensures Valid() && nextId == old(nextId)
      ensures HasId(old(rows), item.id) ==> rows == ReplaceById(old(rows), item) && count == 1
      ensures !HasId(old(rows), item.id) ==> rows == old(rows) && count == 0
    {
      count := |Where(rows, IdIs(item.id))|;
      WhereIdCount(rows, item.id);
      if count > 0 {
        ReplaceByIdDistinct(rows, item);
        rows := ReplaceById(rows, item);
      }
    }

    /** `SELECT * FROM Person`, the query behind `getPeople`, `getPeopleFlow` and `selectAll`. */
    function SelectAll(): (r: seq<Person>)
      reads this
      requires Valid()
      ensures DistinctIds(r)
      ensures forall p :: p in r <==> p in rows
    {
      rows
    }

    /** `SELECT * FROM Person WHERE name = :name`. */
    function SelectByName(name: string): (r: seq<Person>)
      reads this
      requires Valid()
      ensures DistinctIds(r)
      ensures forall p :: p in r <==> p in rows && p.name == name
    {
      WhereDistinct(rows, NameIs(name));
      Where(rows, NameIs(name))
    }

    /**
     * `SELECT * FROM Person WHERE id = :id`. The provider calls this member,
     * which the DAO interface does not declare; it is given the meaning of
     * a lookup by primary key, `None` when no row has the id.
     */
    function GetPersonById(id: int): (r: Option<Person>)
      reads this
      ensures r.Some? <==> HasId(rows, id)
      ensures r.Some? ==> r.value in rows && r.value.id == id
    {
      Find(rows, id)
    }
  }

  /** Rows drawn from a valid table keep their ids set and below the counter. */
  lemma KeptRowsValid(rows: seq<Person>, kept: seq<Person>, next: int)
    requires forall i :: 0 <= i < |rows| ==> rows[i].id != UNSET_ID && rows[i].id < next
    requires forall p :: p in kept ==> p in rows
    ensures forall i :: 0 <= i < |kept| ==> kept[i].id != UNSET_ID && kept[i].id < next
  {
    forall i | 0 <= i < |kept| ensures kept[i].id != UNSET_ID && kept[i].id < next {
      assert kept[i] in rows;
    }
  }

  /** Appending a row with an unused id below the new counter keeps the table valid. */
  lemma AppendFresh(rows: seq<Person>, p: Person, next: int)
    requires DistinctIds(rows) && !HasId(rows, p.id) && p.id != UNSET_ID && p.id < next
    requires forall i :: 0 <= i < |rows| ==> rows[i].id != UNSET_ID && rows[i].id < next
    ensures DistinctIds(rows + [p])
    ensures forall i :: 0 <= i < |rows + [p]| ==> (rows + [p])[i].id != UNSET_ID && (rows + [p])[i].id < next
  {
    var r := rows + [p];
    forall i, j | 0 <= i < j < |r| ensures r[i].id != r[j].id {
      if j == |rows| {
        assert r[i] == rows[i];
      } else {
        assert r[i] == rows[i] && r[j] == rows[j];
      }
    }
  }
}

/**
 * `Repository<TEntity>` and `Repository<TEntity, TKey>`: generic data access over one table of
 * entities. The two classes of the source differ only in the key type (`int` or any comparable
 * type), so one class generic in the key models both.
 *
 * The table is the ordered sequence of its rows, with unique identifiers (the primary key).
 * A row is an entity's value: identifier, payload and the capability fields. Which capabilities the
 * entity type has is fixed when the repository is created (`isAuditable`, `softDelete`), as are
 * the current user's name (`actor`) and the time (`now`), read once and reused for every stamp.
 *
 * Reads are functions of the table; writes are methods of the class that change `rows` the way the
 * database does once the operation is saved. The message of every exception uses
 * `nameof(TEntity)`, which is the type parameter's own name, so it reads "TEntity" whatever the
 * entity type is.
 */
module Repositories {
  import opened Common
  import opened Linq
  import opened Entities
  import Paging

  /** A stored entity: key, payload and the fields of its capabilities. */
  datatype Row<K, D> = Row(id: K, data: D, audit: AuditInfo, deletion: DeletionInfo)

  datatype RepositoryError =
    | RepositoryException(message: string)
      /** The database or the change tracker refused the save (duplicate key, missing row); nothing is written. */
    | RejectedByStore

  const NullEntityMessage := "Provided TEntity was null"
  const NullEntitiesMessage := "Provided enumerable of TEntitys was null"

  /** The primary-key constraint of the table. */
  predicate UniqueIds<K(==), D>(rows: seq<Row<K, D>>)
  {
    forall i, j | 0 <= i < j < |rows| :: rows[i].id != rows[j].id
  }

  function Ids<K, D>(rows: seq<Row<K, D>>): set<K>
  {
    set i | 0 <= i < |rows| :: rows[i].id
  }

  /** The filter `e => e.Id == id`. */
  function HasId<K(==), D>(id: K): Row<K, D> -> bool
  {
    (r: Row<K, D>) => r.id == id
  }

  /** The filter `i => ids.Contains(i.Id)`. */
  function IdIn<K, D>(ids: set<K>): Row<K, D> -> bool
  {
    (r: Row<K, D>) => r.id in ids
  }

  /** The soft-deletion setters: `IsDeleted = true`, `DeletedBy = actor`, `DeletedDate = now`. */
  function MarkDeleted<K, D>(actor: string, now: DateTime): Row<K, D> -> Row<K, D>
  {
    (r: Row<K, D>) => r.(deletion := DeletionInfo(true, Some(actor), Some(now)))
  }

  /** The soft-deletion setters change the deletion fields only: key, payload and audit stamps stay. */
  lemma MarkDeletedStamps<K, D>(row: Row<K, D>, actor: string, now: DateTime)
    ensures var after := MarkDeleted(actor, now)(row);
      && after.id == row.id && after.data == row.data && after.audit == row.audit
      && after.deletion.isDeleted && after.deletion.deletedBy == Some(actor) && after.deletion.deletedDate == Some(now)
  {
  }

  /** `ExecuteUpdate`: the setter applied to every row the filter selects, in place. */
  function ExecuteUpdate<K, D>(rows: seq<Row<K, D>>, filter: Row<K, D> -> bool, setter: Row<K, D> -> Row<K, D>): (r: seq<Row<K, D>>)
    ensures |r| == |rows|
    ensures forall i :: 0 <= i < |rows| ==> r[i] == if filter(rows[i]) then setter(rows[i]) else rows[i]
  {
    Select(rows, (x: Row<K, D>) => if filter(x) then setter(x) else x)
  }

  /** `ExecuteDelete`: the rows the filter selects are removed, the others keep their order. */
  function ExecuteDelete<K, D>(rows: seq<Row<K, D>>, filter: Row<K, D> -> bool): (r: seq<Row<K, D>>)
    ensures |r| + |Where(rows, filter)| == |rows|
    ensures forall i :: 0 <= i < |r| ==> r[i] in rows && !filter(r[i])
    ensures forall i :: 0 <= i < |rows| && !filter(rows[i]) ==> rows[i] in r
  {
    WherePartition(rows, filter);
    Where(rows, Not(filter))
  }

  /** Entities as `AddAsync`/`AddRangeAsync` hand them to the store: creation-stamped when auditable. */
  function Stamped<K, D>(entities: seq<Row<K, D>>, isAuditable: bool, actor: string, now: DateTime): (r: seq<Row<K, D>>)
    ensures |r| == |entities|
    ensures forall i :: 0 <= i < |entities| ==>
      r[i] == if isAuditable then entities[i].(audit := entities[i].audit.Created(actor, now)) else entities[i]
  {
    Select(entities, (e: Row<K, D>) => if isAuditable then e.(audit := e.audit.Created(actor, now)) else e)
  }

  /** The row `UpdateAsync`/`UpdateRangeAsync` writes for a stored row: the given entity with its key, if any. */
  function ReplaceFrom<K(==), D>(entities: seq<Row<K, D>>): Row<K, D> -> Row<K, D>
  {
    (r: Row<K, D>) => match FirstOrDefault(entities, HasId(r.id)) case Some(e) => e case None => r
  }

  // ---------------------------------------------------------------------------------------------
  // Reads, over the table `rows`. None of them filters out soft-deleted rows.

  /** `CountAsync`: the number of rows, which under the key constraint is the number of keys. */
  function Count<K, D>(rows: seq<Row<K, D>>): (r: nat)
    ensures UniqueIds(rows) ==> r == |Ids(rows)|
  {
    KeysCounted(rows);
    |rows|
  }

  lemma {:induction false} KeysCounted<K, D>(rows: seq<Row<K, D>>)
    ensures UniqueIds(rows) ==> |Ids(rows)| == |rows|
  {
    if rows != [] && UniqueIds(rows) {
      var init, last := rows[..|rows| - 1], rows[|rows| - 1];
      assert UniqueIds(init) by {
        forall i, j | 0 <= i < j < |init|
          ensures init[i].id != init[j].id
        {
          assert init[i] == rows[i] && init[j] == rows[j];
        }
      }
      KeysCounted(init);
      forall k | k in Ids(rows)
        ensures k in Ids(init) + {last.id}
      {
        var i :| 0 <= i < |rows| && rows[i].id == k;
        if i < |init| {
          assert init[i] == rows[i];
        }
      }
      forall k | k in Ids(init)
        ensures k in Ids(rows)
      {
        var i :| 0 <= i < |init| && init[i].id == k;
        assert rows[i] == init[i];
      }
      assert Ids(rows) == Ids(init) + {last.id};
      assert last.id !in Ids(init) by {
        forall i | 0 <= i < |init|
          ensures init[i].id != last.id
        {
          assert init[i] == rows[i];
        }
      }
    }
  }

  /** The filter that keeps every row. */
  function AnyRow<K, D>(): Row<K, D> -> bool
  {
    (r: Row<K, D>) => true
  }

  /** `GetAllAsync`: every row, in table order; the same as `FindAllAsync` with a condition that always holds. */
  function GetAll<K, D>(rows: seq<Row<K, D>>): (r: seq<Row<K, D>>)
    ensures |r| == Count(rows)
    ensures r == FindAll(rows, AnyRow())
  {
    WhereAll(rows, AnyRow());
    rows
  }

  /**
   * `FindAllAsync(predicate)`: the matching rows in table order; its first row, if any, is what
   * `FindAsync` returns for the same condition.
   */
  function FindAll<K, D>(rows: seq<Row<K, D>>, condition: Row<K, D> -> bool): (r: seq<Row<K, D>>)
    ensures |r| <= Count(rows)
    ensures forall i :: 0 <= i < |r| ==> r[i] in rows && condition(r[i])
    ensures forall i :: 0 <= i < |rows| && condition(rows[i]) ==> rows[i] in r
    ensures Find(rows, condition) == if r == [] then None else Some(r[0])
  {
    Where(rows, condition)
  }

  /** `FindAsync(predicate)`, that is `Where(predicate).FirstOrDefault()`: the first matching row. */
  function Find<K, D>(rows: seq<Row<K, D>>, condition: Row<K, D> -> bool): (r: Option<Row<K, D>>)
    ensures r.None? <==> forall i :: 0 <= i < |rows| ==> !condition(rows[i])
    ensures r.Some? ==> exists i :: 0 <= i < |rows| && rows[i] == r.value && condition(r.value)
                                     && forall j :: 0 <= j < i ==> !condition(rows[j])
  {
    FirstOfWhere(rows, condition);
    FirstOrDefault(Where(rows, condition), _ => true)
  }

  /** `FindByIdAsync(id)`: the row with that key, or `null`. */
  function FindById<K(==), D>(rows: seq<Row<K, D>>, id: K): (r: Option<Row<K, D>>)
    ensures r.Some? <==> id in Ids(rows)
    ensures r.Some? ==> r.value in rows && r.value.id == id
  {
    FirstOrDefault(Where(rows, HasId(id)), _ => true)
  }

  /** With unique keys, the row found by key is the one stored under that key. */
  lemma FindsStoredRow<K, D>(rows: seq<Row<K, D>>, i: nat)
    requires UniqueIds(rows) && i < |rows|
    ensures FindById(rows, rows[i].id) == Some(rows[i])
  {
    var r := FindById(rows, rows[i].id);
    assert rows[i].id in Ids(rows);
    var j :| 0 <= j < |rows| && rows[j] == r.value;
  }

  /**
   * `GetPagedAsync(pageSize, pageNumber)`: `Skip(pageSize * pageNumber).Take(pageSize)`, with pages
   * numbered from zero and no argument checked; a zero-based page is the one-based page
   * `pageNumber + 1` of the pager. The rows are taken in the table's sequence order, and `Skip` and
   * `Take` follow LINQ over a sequence: a negative count skips or takes nothing. The database the
   * query is translated to rejects a negative offset or row count instead; that error is not part
   * of this model.
   */
  function GetPaged<K, D>(rows: seq<Row<K, D>>, pageSize: int, pageNumber: int): (r: seq<Row<K, D>>)
    ensures |r| <= Max(pageSize, 0)
    ensures pageSize <= 0 ==> r == []
    ensures pageSize >= 1 && pageNumber <= 0 ==> r == rows[..Min(pageSize, |rows|)]
    ensures pageSize >= 1 && pageNumber >= 0 ==> Paging.GetPage(rows, pageSize, pageNumber + 1) == Ok(r)
  {
    Take(Skip(rows, pageSize * pageNumber), pageSize)
  }

  /**
   * `GetFilteredPagedAsync(predicate, pageSize, pageNumber)`: the same paging over the matching
   * rows, with the same reading of `Skip` and `Take`.
   */
  function GetFilteredPaged<K, D>(rows: seq<Row<K, D>>, condition: Row<K, D> -> bool, pageSize: int, pageNumber: int)
    : (r: seq<Row<K, D>>)
    ensures |r| <= Max(pageSize, 0)
    ensures forall i :: 0 <= i < |r| ==> r[i] in rows && condition(r[i])
    ensures pageSize <= 0 ==> r == []
    ensures pageSize >= 1 && pageNumber <= 0 ==>
      r == Where(rows, condition)[..Min(pageSize, |Where(rows, condition)|)]
    ensures pageSize >= 1 && pageNumber >= 0 ==>
      Paging.GetPage(Where(rows, condition), pageSize, pageNumber + 1) == Ok(r)
  {
    GetPaged(Where(rows, condition), pageSize, pageNumber)
  }

  // ---------------------------------------------------------------------------------------------
  // The repository object and its writes.

  class Repository<K(==), D> {
    const actor: string
    const now: DateTime
    const isAuditable: bool
    const softDelete: bool
    var rows: seq<Row<K, D>>

    ghost predicate Valid()
      reads this
    {
      UniqueIds(rows)
    }

    /**
     * Binds the repository to the current user's name and to the time of creation; `table` is
     * what the table holds at that moment.
     */
    constructor (currentUserName: string, now: DateTime, isAuditable: bool, softDelete: bool, table: seq<Row<K, D>>)
      requires UniqueIds(table)
      ensures Valid()
      ensures actor == currentUserName && this.now == now
      ensures this.isAuditable == isAuditable && this.softDelete == softDelete && rows == table
    {
      actor := currentUserName;
      this.now := now;
      this.isAuditable := isAuditable;
      this.softDelete := softDelete;
      rows := table;
    }

    /** `AddAsync(entity)`: inserts the (stamped) entity and reports one row written. */
    method Add(entity: Option<Row<K, D>>) returns (r: Result<nat, RepositoryError>)
      requires Valid()
      modifies this
      ensures Valid()
      ensures entity.None? ==> r == Err(RepositoryException(NullEntityMessage)) && rows == old(rows)
      ensures entity.Some? ==>
        var stamped := Stamped([entity.value], isAuditable, actor, now);
        if entity.value.id in Ids(old(rows)) then r == Err(RejectedByStore) && rows == old(rows)
        else r == Ok(1) && rows == old(rows) + stamped
    {
      if entity.None? {
        return Err(RepositoryException(NullEntityMessage));
      }
      var stamped := Stamped([entity.value], isAuditable, actor, now);
      if entity.value.id in Ids(rows) {
        return Err(RejectedByStore);
      }
      AppendKeepsUniqueIds(rows, stamped);
      rows := rows + stamped;
      r := Ok(1);
    }

    /**
     * `AddRangeAsync(entities)`: inserts all the (stamped) entities in one save, or none of them
     * when one key clashes; an empty input writes nothing.
     */
    method AddRange(entities: Option<seq<Row<K, D>>>) returns (r: Result<nat, RepositoryError>)
      requires Valid()
      modifies this
      ensures Valid()
      ensures entities.None? ==> r == Err(RepositoryException(NullEntitiesMessage)) && rows == old(rows)
      ensures entities == Some([]) ==> r == Ok(0) && rows == old(rows)
      ensures entities.Some? && entities.value != [] ==>
        var stamped := Stamped(entities.value, isAuditable, actor, now);
        if UniqueIds(old(rows) + stamped) then r == Ok(|stamped|) && rows == old(rows) + stamped
        else r == Err(RejectedByStore) && rows == old(rows)
    {
      if entities.None? {
        return Err(RepositoryException(NullEntitiesMessage));
      }
      if entities.value == [] {
        return Ok(0);
      }
      var stamped := Stamped(entities.value, isAuditable, actor, now);
      if !UniqueIds(rows + stamped) {
        return Err(RejectedByStore);
      }
      rows := rows + stamped;
      r := Ok(|stamped|);
    }

    /**
     * `RemoveByIdAsync(id)`: soft-deletes (stamps) or deletes the rows with that key, and reports
     * how many there were.
     */
    method RemoveById(id: K) returns (affected: nat)
      requires Valid()
      modifies this
      ensures Valid()
      ensures affected == |Where(old(rows), HasId(id))|
      ensures softDelete ==> rows == ExecuteUpdate(old(rows), HasId(id), MarkDeleted(actor, now))
      ensures !softDelete ==> rows == ExecuteDelete(old(rows), HasId(id))
    {
      affected := |Where(rows, HasId(id))|;
      if softDelete {
        UpdateKeepsIds(rows, HasId(id), MarkDeleted(actor, now));
        rows := ExecuteUpdate(rows, HasId(id), MarkDeleted(actor, now));
      } else {
        WhereKeepsUniqueIds(rows, Not(HasId(id)));
        rows := ExecuteDelete(rows, HasId(id));
      }
    }

    /** `RemoveAsync(entity)`: `RemoveByIdAsync(entity.Id)`, after rejecting `null`. */
    method Remove(entity: Option<Row<K, D>>) returns (r: Result<nat, RepositoryError>)
      requires Valid()
      modifies this
      ensures Valid()
      ensures entity.None? ==> r == Err(RepositoryException(NullEntityMessage)) && rows == old(rows)
      ensures entity.Some? ==>
        var id := entity.value.id;
        && r == Ok(|Where(old(rows), HasId(id))|)
        && (softDelete ==> rows == ExecuteUpdate(old(rows), HasId(id), MarkDeleted(actor, now)))
        && (!softDelete ==> rows == ExecuteDelete(old(rows), HasId(id)))
    {
      if entity.None? {
        return Err(RepositoryException(NullEntityMessage));
      }
      var affected := RemoveById(entity.value.id);
      r := Ok(affected);
    }

    /**
     * `RemoveRangeAsync(entities)`: soft-deletes or deletes every stored row whose key is the key
     * of one of the entities, and reports how many rows that was.
     */
    method RemoveRange(entities: Option<seq<Row<K, D>>>) returns (r: Result<nat, RepositoryError>)
      requires Valid()
      modifies this
      ensures Valid()
      ensures entities.None? ==> r == Err(RepositoryException(NullEntitiesMessage)) && rows == old(rows)
      ensures entities == Some([]) ==> r == Ok(0) && rows == old(rows)
      ensures entities.Some? && entities.value != [] ==>
        var ids := Ids(entities.value);
        && r == Ok(|Where(old(rows), IdIn(ids))|)
        && (softDelete ==> rows == ExecuteUpdate(old(rows), IdIn(ids), MarkDeleted(actor, now)))
        && (!softDelete ==> rows == ExecuteDelete(old(rows), IdIn(ids)))
    {
      if entities.None? {
        return Err(RepositoryException(NullEntitiesMessage));
      }
      if entities.value == [] {
        return Ok(0);
      }
      var ids := Ids(entities.value);
      r := Ok(|Where(rows, IdIn(ids))|);
      if softDelete {
        UpdateKeepsIds(rows, IdIn(ids), MarkDeleted(actor, now));
        rows := ExecuteUpdate(rows, IdIn(ids), MarkDeleted(actor, now));
      } else {
        WhereKeepsUniqueIds(rows, Not(IdIn(ids)));
        rows := ExecuteDelete(rows, IdIn(ids));
      }
    }

    /**
     * `UpdateAsync(entity)`: the stored row with the entity's key becomes the entity, exactly as
     * given (no audit stamp); a key that is not stored is refused.
     */
    method Update(entity: Option<Row<K, D>>) returns (r: Result<nat, RepositoryError>)
      requires Valid()
      modifies this
      ensures Valid()
      ensures entity.None? ==> r == Err(RepositoryException(NullEntityMessage)) && rows == old(rows)
      ensures entity.Some? && entity.value.id !in Ids(old(rows)) ==> r == Err(RejectedByStore) && rows == old(rows)
      ensures entity.Some? && entity.value.id in Ids(old(rows)) ==>
        r == Ok(1) && rows == Select(old(rows), ReplaceFrom([entity.value]))
    {
      if entity.None? {
        return Err(RepositoryException(NullEntityMessage));
      }
      if entity.value.id !in Ids(rows) {
        return Err(RejectedByStore);
      }
      ReplaceKeepsIds(rows, [entity.value]);
      rows := Select(rows, ReplaceFrom([entity.value]));
      r := Ok(1);
    }

    /**
     * `UpdateRangeAsync(entities)`: every entity replaces the stored row with its key, in one
     * save; the save is refused when a key is not stored or two entities share a key.
     */
    method UpdateRange(entities: Option<seq<Row<K, D>>>) returns (r: Result<nat, RepositoryError>)
      requires Valid()
      modifies this
      ensures Valid()
      ensures entities.None? ==> r == Err(RepositoryException(NullEntitiesMessage)) && rows == old(rows)
      ensures entities == Some([]) ==> r == Ok(0) && rows == old(rows)
      ensures entities.Some? && entities.value != [] ==>
        var es := entities.value;
        if UniqueIds(es) && Ids(es) <= Ids(old(rows)) then r == Ok(|es|) && rows == Select(old(rows), ReplaceFrom(es))
        else r == Err(RejectedByStore) && rows == old(rows)
    {
      if entities.None? {
        return Err(RepositoryException(NullEntitiesMessage));
      }
      var es := entities.value;
      if es == [] {
        return Ok(0);
      }
      if !(UniqueIds(es) && Ids(es) <= Ids(rows)) {
        return Err(RejectedByStore);
      }
      ReplaceKeepsIds(rows, es);
      rows := Select(rows, ReplaceFrom(es));
      r := Ok(|es|);
    }

    /**
     * `UpdateAsync(predicate, setPropertyCalls)`: the setters applied directly to every matching
     * row, reporting how many matched; nothing is stamped. A change of keys that would break the
     * primary key is refused by the database.
     */
    method UpdateWhere(condition: Row<K, D> -> bool, setter: Row<K, D> -> Row<K, D>) returns (r: Result<nat, RepositoryError>)
      requires Valid()
      modifies this
      ensures Valid()
      ensures UniqueIds(ExecuteUpdate(old(rows), condition, setter)) ==>
        r == Ok(|Where(old(rows), condition)|) && rows == ExecuteUpdate(old(rows), condition, setter)
      ensures !UniqueIds(ExecuteUpdate(old(rows), condition, setter)) ==> r == Err(RejectedByStore) && rows == old(rows)
    {
      var updated := ExecuteUpdate(rows, condition, setter);
      if !UniqueIds(updated) {
        return Err(RejectedByStore);
      }
      r := Ok(|Where(rows, condition)|);
      rows := updated;
    }
  }

  // ---------------------------------------------------------------------------------------------
  // Lemmas: the primary key survives every write.

  lemma AppendKeepsUniqueIds<K, D>(rows: seq<Row<K, D>>, added: seq<Row<K, D>>)
    requires UniqueIds(rows)
    ensures UniqueIds(rows + added) <==>
      UniqueIds(added) && forall i :: 0 <= i < |added| ==> added[i].id !in Ids(rows)
  {
    var all := rows + added;
    if UniqueIds(added) && forall i :: 0 <= i < |added| ==> added[i].id !in Ids(rows) {
      forall i, j | 0 <= i < j < |all|
        ensures all[i].id != all[j].id
      {
        if i < |rows| <= j {
          assert all[i] == rows[i] && all[j] == added[j - |rows|];
        } else if |rows| <= i {
          assert all[i] == added[i - |rows|] && all[j] == added[j - |rows|];
        }
      }
    }
    if UniqueIds(all) {
      forall i, j | 0 <= i < j < |added|
        ensures added[i].id != added[j].id
      {
        assert all[|rows| + i] == added[i] && all[|rows| + j] == added[j];
      }
      forall i, k | 0 <= i < |added| && 0 <= k < |rows|
        ensures rows[k].id != added[i].id
      {
        assert all[k] == rows[k] && all[|rows| + i] == added[i];
      }
    }
  }

  lemma UpdateKeepsIds<K, D>(rows: seq<Row<K, D>>, filter: Row<K, D> -> bool, setter: Row<K, D> -> Row<K, D>)
    requires UniqueIds(rows)
    requires forall i :: 0 <= i < |rows| ==> setter(rows[i]).id == rows[i].id
    ensures UniqueIds(ExecuteUpdate(rows, filter, setter))
    ensures forall i :: 0 <= i < |rows| ==> ExecuteUpdate(rows, filter, setter)[i].id == rows[i].id
  {
  }

  lemma {:induction false} WhereKeepsUniqueIds<K, D>(rows: seq<Row<K, D>>, filter: Row<K, D> -> bool)
    requires UniqueIds(rows)
    ensures UniqueIds(Where(rows, filter))
  {
    if rows != [] {
      WhereKeepsUniqueIds(rows[1..], filter);
      var rest := Where(rows[1..], filter);
      if filter(rows[0]) {
        var all := [rows[0]] + rest;
        forall i, j | 0 <= i < j < |all|
          ensures all[i].id != all[j].id
        {
          if i == 0 {
            assert all[j] == rest[j - 1] && rest[j - 1] in rows[1..];
          }
        }
      }
    }
  }

  lemma ReplaceKeepsIds<K, D>(rows: seq<Row<K, D>>, entities: seq<Row<K, D>>)
    requires UniqueIds(rows)
    ensures UniqueIds(Select(rows, ReplaceFrom(entities)))
    ensures forall i :: 0 <= i < |rows| ==> Select(rows, ReplaceFrom(entities))[i].id == rows[i].id
  {
    var after := Select(rows, ReplaceFrom(entities));
    forall i | 0 <= i < |rows|
      ensures after[i].id == rows[i].id
    {
      match FirstOrDefault(entities, HasId(rows[i].id))
      case Some(e) => assert HasId(rows[i].id)(e);
      case None =>
    }
  }

  // ---------------------------------------------------------------------------------------------
  // Lemmas: what a write means for later reads.

  /** Two tables with unique keys and the same row at position `i`... */
  lemma SameRowFound<K, D>(a: seq<Row<K, D>>, b: seq<Row<K, D>>, i: nat, j: nat)
    requires UniqueIds(a) && UniqueIds(b) && i < |a| && j < |b| && a[i] == b[j]
    ensures FindById(a, a[i].id) == FindById(b, a[i].id)
  {
    FindsStoredRow(a, i);
    FindsStoredRow(b, j);
  }

  /**
   * Soft deletion of the rows whose key is in `ids` (`RemoveRangeAsync` on an `ISoftDelete` type):
   * no row disappears, each of those rows is found by its key carrying the deletion stamp, every
   * other key finds what it found before, and doing it again reports the same number of rows.
   */
  lemma SoftRemoveRange<K, D>(rows: seq<Row<K, D>>, ids: set<K>, actor: string, now: DateTime)
    requires UniqueIds(rows)
    ensures var after := ExecuteUpdate(rows, IdIn(ids), MarkDeleted(actor, now));
      && UniqueIds(after)
      && Count(after) == Count(rows)
      && Ids(after) == Ids(rows)
      && |Where(after, IdIn(ids))| == |Where(rows, IdIn(ids))|
      && (forall i :: 0 <= i < |rows| && rows[i].id in ids ==>
            FindById(after, rows[i].id) == Some(rows[i].(deletion := DeletionInfo(true, Some(actor), Some(now)))))
      && (forall k :: k !in ids ==> FindById(after, k) == FindById(rows, k))
  {
    var after := ExecuteUpdate(rows, IdIn(ids), MarkDeleted(actor, now));
    UpdateKeepsIds(rows, IdIn(ids), MarkDeleted(actor, now));
    SameIds(rows, after);
    WhereCountAgree(after, rows, IdIn(ids));
    forall i | 0 <= i < |rows| && rows[i].id in ids
      ensures FindById(after, rows[i].id) == Some(rows[i].(deletion := DeletionInfo(true, Some(actor), Some(now))))
    {
      FindsStoredRow(after, i);
    }
    forall k | k !in ids
      ensures FindById(after, k) == FindById(rows, k)
    {
      if k in Ids(rows) {
        var i :| 0 <= i < |rows| && rows[i].id == k;
        SameRowFound(after, rows, i, i);
      }
    }
  }

  /** Soft `RemoveByIdAsync(id)`: the same as a soft `RemoveRangeAsync` of the one key `id`. */
  lemma SoftRemoveById<K, D>(rows: seq<Row<K, D>>, id: K, actor: string, now: DateTime)
    requires UniqueIds(rows)
    ensures var after := ExecuteUpdate(rows, HasId(id), MarkDeleted(actor, now));
      && UniqueIds(after)
      && Count(after) == Count(rows)
      && Ids(after) == Ids(rows)
      && |Where(after, HasId(id))| == |Where(rows, HasId(id))|
      && FindById(after, id) == (match FindById(rows, id)
                                 case Some(r) => Some(r.(deletion := DeletionInfo(true, Some(actor), Some(now))))
                                 case None => None)
      && (forall k :: k != id ==> FindById(after, k) == FindById(rows, k))
  {
    var after := ExecuteUpdate(rows, HasId(id), MarkDeleted(actor, now));
    assert after == ExecuteUpdate(rows, IdIn({id}), MarkDeleted(actor, now));
    SoftRemoveRange(rows, {id}, actor, now);
    WhereAgree(rows, HasId(id), IdIn({id}));
    WhereAgree(after, HasId(id), IdIn({id}));
    if id in Ids(rows) {
      var i :| 0 <= i < |rows| && rows[i].id == id;
      FindsStoredRow(rows, i);
    }
  }

  /** Soft-deleting rows that are already soft-deleted only renews their stamp: the last one counts. */
  lemma SoftRemoveRestamps<K, D>(rows: seq<Row<K, D>>, filter: Row<K, D> -> bool,
                                 actor1: string, now1: DateTime, actor2: string, now2: DateTime)
    requires forall i :: 0 <= i < |rows| ==> filter(MarkDeleted(actor1, now1)(rows[i])) == filter(rows[i])
    ensures ExecuteUpdate(ExecuteUpdate(rows, filter, MarkDeleted(actor1, now1)), filter, MarkDeleted(actor2, now2))
         == ExecuteUpdate(rows, filter, MarkDeleted(actor2, now2))
  {
    var once := ExecuteUpdate(rows, filter, MarkDeleted(actor1, now1));
    var twice := ExecuteUpdate(once, filter, MarkDeleted(actor2, now2));
    var direct := ExecuteUpdate(rows, filter, MarkDeleted(actor2, now2));
    forall i | 0 <= i < |rows|
      ensures twice[i] == direct[i]
    {
    }
  }

  /**
   * Hard deletion of the rows whose key is in `ids` (`RemoveRangeAsync` on any other type): those
   * keys find nothing any more, every other key finds what it found before, and the table shrinks
   * by exactly the number of rows reported.
   */
  lemma HardRemoveRange<K, D>(rows: seq<Row<K, D>>, ids: set<K>)
    requires UniqueIds(rows)
    ensures var after := ExecuteDelete(rows, IdIn(ids));
      && UniqueIds(after)
      && Count(after) == Count(rows) - |Where(rows, IdIn(ids))|
      && (forall k :: k in ids ==> FindById(after, k) == None)
      && (forall k :: k !in ids ==> FindById(after, k) == FindById(rows, k))
  {
    var after := ExecuteDelete(rows, IdIn(ids));
    WhereKeepsUniqueIds(rows, Not(IdIn(ids)));
    WherePartition(rows, IdIn(ids));
    assert forall k :: k in ids ==> FindById(after, k) == None;
    forall k | k !in ids
      ensures FindById(after, k) == FindById(rows, k)
    {
      if k in Ids(rows) {
        var i :| 0 <= i < |rows| && rows[i].id == k;
        assert Not(IdIn(ids))(rows[i]);
        var j :| 0 <= j < |after| && after[j] == rows[i];
        SameRowFound(rows, after, i, j);
      }
    }
  }

  /** Hard `RemoveByIdAsync(id)`: the same as a hard `RemoveRangeAsync` of the one key `id`. */
  lemma HardRemoveById<K, D>(rows: seq<Row<K, D>>, id: K)
    requires UniqueIds(rows)
    ensures var after := ExecuteDelete(rows, HasId(id));
      && UniqueIds(after)
      && Count(after) == Count(rows) - |Where(rows, HasId(id))|
      && FindById(after, id) == None
      && (forall k :: k != id ==> FindById(after, k) == FindById(rows, k))
  {
    WhereAgree(rows, Not(HasId(id)), Not(IdIn({id})));
    WhereAgree(rows, HasId(id), IdIn({id}));
    HardRemoveRange(rows, {id});
  }

  /**
   * After `AddAsync`/`AddRangeAsync` has appended rows with new keys, each of them is found by its
   * key, exactly as appended, and every other key finds what it found before.
   */
  lemma AddThenFind<K, D>(rows: seq<Row<K, D>>, added: seq<Row<K, D>>)
    requires UniqueIds(rows + added)
    ensures Count(rows + added) == Count(rows) + |added|
    ensures forall j :: 0 <= j < |added| ==> FindById(rows + added, added[j].id) == Some(added[j])
    ensures forall k :: k !in Ids(added) ==> FindById(rows + added, k) == FindById(rows, k)
  {
    var after := rows + added;
    assert UniqueIds(rows) by {
      forall i, j | 0 <= i < j < |rows|
        ensures rows[i].id != rows[j].id
      {
        assert rows[i] == after[i] && rows[j] == after[j];
      }
    }
    forall j | 0 <= j < |added|
      ensures FindById(after, added[j].id) == Some(added[j])
    {
      assert after[|rows| + j] == added[j];
      FindsStoredRow(after, |rows| + j);
    }
    forall k | k !in Ids(added)
      ensures FindById(after, k) == FindById(rows, k)
    {
      if k in Ids(rows) {
        var i :| 0 <= i < |rows| && rows[i].id == k;
        assert after[i] == rows[i];
        SameRowFound(rows, after, i, i);
      }
    }
  }

  /**
   * After `UpdateAsync`/`UpdateRangeAsync` with entities whose keys are stored and distinct, each
   * entity is what its key finds, no row appears or disappears, and every other key finds what
   * it found before.
   */
  lemma UpdateThenFind<K, D>(rows: seq<Row<K, D>>, entities: seq<Row<K, D>>)
    requires UniqueIds(rows) && UniqueIds(entities) && Ids(entities) <= Ids(rows)
    ensures var after := Select(rows, ReplaceFrom(entities));
      && UniqueIds(after)
      && Count(after) == Count(rows)
      && Ids(after) == Ids(rows)
      && (forall j :: 0 <= j < |entities| ==> FindById(after, entities[j].id) == Some(entities[j]))
      && (forall k :: k !in Ids(entities) ==> FindById(after, k) == FindById(rows, k))
  {
    var after := Select(rows, ReplaceFrom(entities));
    ReplaceKeepsIds(rows, entities);
    SameIds(rows, after);
    forall j | 0 <= j < |entities|
      ensures FindById(after, entities[j].id) == Some(entities[j])
    {
      var k := entities[j].id;
      assert k in Ids(entities);
      var i :| 0 <= i < |rows| && rows[i].id == k;
      assert HasId(k)(entities[j]);
      var e := FirstOrDefault(entities, HasId(k)).value;
      var m :| 0 <= m < |entities| && entities[m] == e;
      assert m == j;
      FindsStoredRow(after, i);
    }
    forall k | k !in Ids(entities)
      ensures FindById(after, k) == FindById(rows, k)
    {
      if k in Ids(rows) {
        var i :| 0 <= i < |rows| && rows[i].id == k;
        assert FirstOrDefault(entities, HasId(k)).None?;
        SameRowFound(after, rows, i, i);
      }
    }
  }

  /** Two tables whose keys agree position by position hold the same keys. */
  lemma SameIds<K, D>(a: seq<Row<K, D>>, b: seq<Row<K, D>>)
    requires |a| == |b| && forall i :: 0 <= i < |a| ==> a[i].id == b[i].id
    ensures Ids(a) == Ids(b)
  {
    forall k | k in Ids(a)
      ensures k in Ids(b)
    {
      var i :| 0 <= i < |a| && a[i].id == k;
      assert b[i].id == k;
    }
  }
}

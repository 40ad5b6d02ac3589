/**
 * `AggregateRoot<TKey>` and `AuditableEntity<TKey>`: the base of every entity, with an identifier
 * and, for auditable entities, creation and modification stamps set through fluent setters that
 * change one field of the entity itself and return it.
 */
module Entities {
  import opened Common

  /** The four audit stamps of an auditable entity, as one value (a stored row keeps them so). */
  datatype AuditInfo = AuditInfo(
    createdBy: Option<string>,
    createdDate: Option<DateTime>,
    modifiedBy: Option<string>,
    modifiedDate: Option<DateTime>)
  {
    /** The stamps after `SetCreatedBy(actor).SetCreatedDate(now)`: creation set, modification kept. */
    function Created(actor: string, now: DateTime): (a: AuditInfo)
      ensures a.createdBy == Some(actor) && a.createdDate == Some(now)
      ensures a.modifiedBy == modifiedBy && a.modifiedDate == modifiedDate
    {
      this.(createdBy := Some(actor), createdDate := Some(now))
    }
  }

  /** No stamps at all: what a freshly constructed entity carries. */
  const NoAudit := AuditInfo(None, None, None, None)

  /** The soft-deletion fields of an `ISoftDelete` entity, as one value. */
  datatype DeletionInfo = DeletionInfo(isDeleted: bool, deletedBy: Option<string>, deletedDate: Option<DateTime>)

  /** Not deleted, never stamped. */
  const NotDeleted := DeletionInfo(false, None, None)

  /**
   * An entity deriving from `AuditableEntity<TKey>`. The identifier is fixed (no setter of this
   * class or its base changes it); every stamp starts out `null`.
   */
  class AuditableEntity<K> {
    const id: K
    var createdBy: Option<string>
    var createdDate: Option<DateTime>
    var modifiedBy: Option<string>
    var modifiedDate: Option<DateTime>

    constructor (id: K)
      ensures this.id == id && Audit() == NoAudit
    {
      this.id := id;
      createdBy, createdDate, modifiedBy, modifiedDate := None, None, None, None;
    }

    /** The entity's stamps as a value. */
    function Audit(): AuditInfo
      reads this
    {
      AuditInfo(createdBy, createdDate, modifiedBy, modifiedDate)
    }

    method SetCreatedBy(createdBy: string) returns (self: AuditableEntity<K>)
      modifies this
      ensures self == this
      ensures this.createdBy == Some(createdBy)
      ensures createdDate == old(createdDate) && modifiedBy == old(modifiedBy) && modifiedDate == old(modifiedDate)
    {
      this.createdBy := Some(createdBy);
      self := this;
    }

    method SetCreatedDate(createdDate: DateTime) returns (self: AuditableEntity<K>)
      modifies this
      ensures self == this
      ensures this.createdDate == Some(createdDate)
      ensures createdBy == old(createdBy) && modifiedBy == old(modifiedBy) && modifiedDate == old(modifiedDate)
    {
      this.createdDate := Some(createdDate);
      self := this;
    }

    method SetModifiedBy(modifiedBy: string) returns (self: AuditableEntity<K>)
      modifies this
      ensures self == this
      ensures this.modifiedBy == Some(modifiedBy)
      ensures createdBy == old(createdBy) && createdDate == old(createdDate) && modifiedDate == old(modifiedDate)
    {
      this.modifiedBy := Some(modifiedBy);
      self := this;
    }

    method SetModifiedDate(modifiedDate: DateTime) returns (self: AuditableEntity<K>)
      modifies this
      ensures self == this
      ensures this.modifiedDate == Some(modifiedDate)
      ensures createdBy == old(createdBy) && createdDate == old(createdDate) && modifiedBy == old(modifiedBy)
    {
      this.modifiedDate := Some(modifiedDate);
      self := this;
    }
  }

  /**
   * The chain the repository runs on an auditable entity before inserting it,
   * `entity.SetCreatedBy(actor).SetCreatedDate(now)`: both creation stamps end up set, the
   * modification stamps and the identifier are left alone, and the entity itself is returned.
   */
  method StampCreation<K>(entity: AuditableEntity<K>, actor: string, now: DateTime) returns (self: AuditableEntity<K>)
    modifies entity
    ensures self == entity
    ensures entity.Audit() == old(entity.Audit()).Created(actor, now)
  {
    var e := entity.SetCreatedBy(actor);
    self := e.SetCreatedDate(now);
  }
}

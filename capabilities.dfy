/**
 * The capability interfaces an entity may implement: `ISoftDelete`, `IAuditCreation`,
 * `IAuditUpdate` and `IApprovable`. Each comes with default fluent methods that assign fields of
 * the object they are called on and return that same object. Each interface is modelled by a class
 * holding exactly its fields.
 */
module Capabilities {
  import opened Common
  import opened Entities

  /** An entity implementing `ISoftDelete`. */
  class SoftDelete {
    var isDeleted: bool
    var deletedBy: Option<string>
    var deletedDate: Option<DateTime>

    constructor ()
      ensures Deletion() == NotDeleted
    {
      isDeleted, deletedBy, deletedDate := false, None, None;
    }

    /** The object's soft-deletion fields as a value. */
    function Deletion(): DeletionInfo
      reads this
    {
      DeletionInfo(isDeleted, deletedBy, deletedDate)
    }

    method SetIsDeleted(isDeleted: bool) returns (self: SoftDelete)
      modifies this
      ensures self == this
      ensures this.isDeleted == isDeleted
      ensures deletedBy == old(deletedBy) && deletedDate == old(deletedDate)
    {
      this.isDeleted := isDeleted;
      self := this;
    }

    method SetDeletedBy(deletedBy: string) returns (self: SoftDelete)
      modifies this
      ensures self == this
      ensures this.deletedBy == Some(deletedBy)
      ensures isDeleted == old(isDeleted) && deletedDate == old(deletedDate)
    {
      this.deletedBy := Some(deletedBy);
      self := this;
    }

    method SetDeletedDate(deletedDate: DateTime) returns (self: SoftDelete)
      modifies this
      ensures self == this
      ensures this.deletedDate == Some(deletedDate)
      ensures isDeleted == old(isDeleted) && deletedBy == old(deletedBy)
    {
      this.deletedDate := Some(deletedDate);
      self := this;
    }
  }

  /**
   * Nothing makes a soft deletion final: `SetIsDeleted(true)` followed by `SetIsDeleted(false)`
   * leaves the object not deleted, with its deletion stamps as they were.
   */
  method DeleteThenRestore(entity: SoftDelete) returns (self: SoftDelete)
    modifies entity
    ensures self == entity
    ensures !entity.isDeleted
    ensures entity.deletedBy == old(entity.deletedBy) && entity.deletedDate == old(entity.deletedDate)
  {
    var e := entity.SetIsDeleted(true);
    self := e.SetIsDeleted(false);
  }

  /** An entity implementing `IAuditCreation`. */
  class AuditCreation {
    var createdBy: Option<string>
    var createdDate: Option<DateTime>

    constructor ()
      ensures createdBy == None && createdDate == None
    {
      createdBy, createdDate := None, None;
    }

    method SetCreatedBy(createdBy: string) returns (self: AuditCreation)
      modifies this
      ensures self == this
      ensures this.createdBy == Some(createdBy)
      ensures createdDate == old(createdDate)
    {
      this.createdBy := Some(createdBy);
      self := this;
    }

    method SetCreatedDate(createdDate: DateTime) returns (self: AuditCreation)
      modifies this
      ensures self == this
      ensures this.createdDate == Some(createdDate)
      ensures createdBy == old(createdBy)
    {
      this.createdDate := Some(createdDate);
      self := this;
    }
  }

  /** Two calls of `SetCreatedBy`: the second value is the one that stays. */
  method CreatedByTwice(entity: AuditCreation, first: string, second: string) returns (self: AuditCreation)
    modifies entity
    ensures self == entity
    ensures entity.createdBy == Some(second) && entity.createdDate == old(entity.createdDate)
  {
    var e := entity.SetCreatedBy(first);
    self := e.SetCreatedBy(second);
  }

  /** An entity implementing `IAuditUpdate`; both setters accept `null`, which clears the field. */
  class AuditUpdate {
    var updatedBy: Option<string>
    var updatedDate: Option<DateTime>

    constructor ()
      ensures updatedBy == None && updatedDate == None
    {
      updatedBy, updatedDate := None, None;
    }

    method SetUpdatedBy(updatedBy: Option<string>) returns (self: AuditUpdate)
      modifies this
      ensures self == this
      ensures this.updatedBy == updatedBy
      ensures updatedDate == old(updatedDate)
    {
      this.updatedBy := updatedBy;
      self := this;
    }

    method SetUpdatedDate(updatedDate: Option<DateTime>) returns (self: AuditUpdate)
      modifies this
      ensures self == this
      ensures this.updatedDate == updatedDate
      ensures updatedBy == old(updatedBy)
    {
      this.updatedDate := updatedDate;
      self := this;
    }
  }

  /** Two calls of `SetUpdatedDate`: the second value (possibly `null`) is the one that stays. */
  method UpdatedDateTwice(entity: AuditUpdate, first: Option<DateTime>, second: Option<DateTime>) returns (self: AuditUpdate)
    modifies entity
    ensures self == entity
    ensures entity.updatedDate == second && entity.updatedBy == old(entity.updatedBy)
  {
    var e := entity.SetUpdatedDate(first);
    self := e.SetUpdatedDate(second);
  }

  /** An entity implementing `IApprovable`. */
  class Approvable {
    var isApproved: bool
    var approvedBy: Option<string>
    var approvedDate: Option<DateTime>

    constructor ()
      ensures !isApproved && approvedBy == None && approvedDate == None
    {
      isApproved, approvedBy, approvedDate := false, None, None;
    }

    /** Marks the object approved and records approver and date exactly as given, `null` included. */
    method Approve(approvedBy: Option<string>, approvedDate: Option<DateTime>) returns (self: Approvable)
      modifies this
      ensures self == this
      ensures isApproved
      ensures this.approvedBy == approvedBy && this.approvedDate == approvedDate
    {
      isApproved := true;
      this.approvedBy := approvedBy;
      this.approvedDate := approvedDate;
      self := this;
    }
  }

  /**
   * A second approval keeps the object approved and overwrites approver and date; no member of
   * `IApprovable` ever sets `IsApproved` back to false.
   */
  method ApproveTwice(entity: Approvable, by1: Option<string>, date1: Option<DateTime>, by2: Option<string>, date2: Option<DateTime>)
    returns (self: Approvable)
    modifies entity
    ensures self == entity
    ensures entity.isApproved && entity.approvedBy == by2 && entity.approvedDate == date2
  {
    var e := entity.Approve(by1, date1);
    self := e.Approve(by2, date2);
  }
}

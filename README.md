# BruteForce core, modelled in Dafny

BruteForce is a .NET template for layered applications. This project models the parts that hold its logic:

- **The generic repository** (`Repository<TEntity>` and `Repository<TEntity, TKey>`). It covers the reads (count, find, find by id, paging), add and add-range with creation stamps, remove by id, remove and remove-range (soft or hard deletion), and the three update operations.
- **The entity base class** `AuditableEntity<TKey>` and the capability interfaces `ISoftDelete`, `IAuditCreation`, `IAuditUpdate` and `IApprovable`, with their fluent setters.
- **`PagingExtension.GetPageAsync`**: one-based paging with argument checks.
- **`RealTimeUserStorage`**: the in-memory user and group registry of the SignalR hub.
- **`ListExtensions.Percentage`** and the **`Response<T>`** envelope.

Modules and files:

| module | file | what it holds |
|---|---|---|
| `Common` | `common.dfy` | C# `null` as `Option`, exceptions as `Result`, `DateTime`, truncating division |
| `Linq` | `linq.dfy` | the LINQ operators the core uses (`Where`, `FirstOrDefault`, `Select`, `Skip`, `Take`) with their C# semantics |
| `Entities` | `entities.dfy` | `AuditableEntity` as a class with its setters |
| `Capabilities` | `capabilities.dfy` | the four capability interfaces, one class each |
| `Paging` | `paging.dfy` | `GetPageAsync` |
| `Repositories` | `repository.dfy` | the repository: table as a sequence of rows; reads are functions, writes are methods of a class |
| `RealTime` | `realtime.dfy` | the two dictionaries as sequences of entries; lookups and updates as functions with lemmas; the storage class whose methods apply them |
| `ListExtensions` | `list_extensions.dfy` | `Percentage` |
| `Models` | `response.dfy` | `Response<T>` |

Design points of the model:

- **Null and exceptions.** A `null` entity or entity collection passed to the repository is `None`. A thrown exception is an `Err` value, or a returned `thrown` value for methods that return `void` in C#.
- **Database effects.** Each write states the table as it is after `SaveChangesAsync`. A save that the database refuses (a duplicate key, or an update of a missing row) is `RejectedByStore` and leaves the table unchanged.
- **Dictionaries.** A .NET `Dictionary` is the sequence of its entries in enumeration order, with unique keys:
  - `Add` appends;
  - `Remove` drops the entry and keeps the order of the others;
  - the indexer setter replaces an entry in place or appends a new one.
- **Clock and current user.** `DateTime.Now` and the current user's name are values passed to the repository when it is created.

## Model

| member | source | states |
|---|---|---|
| `Linq.Where` | BruteForce.Infrastructure/Services/Repository.cs:33-34 | the result keeps exactly the elements that satisfy the predicate, each taken from the input, and is never longer than the input |
| `Linq.WherePartition` | BruteForce.Infrastructure/Services/Repository.cs:86-99 | the rows a filter keeps plus the rows it drops add up to the whole table |
| `Linq.WhereWhere` | BruteForce.RealTime/Implementations/RealTimeUserStorage.cs:186-195 | filtering twice is filtering once by the conjunction |
| `Linq.FirstOrDefault` | BruteForce.Infrastructure/Services/Repository.cs:39-40 | `null` exactly when nothing matches; otherwise the first matching element |
| `Linq.FirstOfWhere` | BruteForce.Infrastructure/Services/Repository.cs:39-40 | `Where(p).FirstOrDefault()` finds the first element of the whole input that satisfies `p` |
| `Entities.AuditInfo.Created` | BruteForce.Domain/Entities/AuditableEntity.cs:15-25 | creation stamps are set and modification stamps are kept |
| `Entities.AuditableEntity.constructor` | BruteForce.Domain/Entities/AuditableEntity.cs:8-13 | a new entity has its id and no stamps |
| `Entities.AuditableEntity.SetCreatedBy` | BruteForce.Domain/Entities/AuditableEntity.cs:15-19 | sets `CreatedBy`, changes no other stamp, returns the entity itself |
| `Entities.AuditableEntity.SetCreatedDate` | BruteForce.Domain/Entities/AuditableEntity.cs:21-25 | sets `CreatedDate`, changes no other stamp, returns the entity itself |
| `Entities.AuditableEntity.SetModifiedBy` | BruteForce.Domain/Entities/AuditableEntity.cs:27-31 | sets `ModifiedBy`, changes no other stamp, returns the entity itself |
| `Entities.AuditableEntity.SetModifiedDate` | BruteForce.Domain/Entities/AuditableEntity.cs:33-37 | sets `ModifiedDate`, changes no other stamp, returns the entity itself |
| `Entities.StampCreation` | BruteForce.Infrastructure/Services/Repository.cs:56-57 | the chain `SetCreatedBy(actor).SetCreatedDate(now)` gives the entity the creation stamps of `Created(actor, now)` and returns it |
| `Capabilities.SoftDelete.SetIsDeleted` | BruteForce.Domain/Interfaces/ISoftDelete.cs:12-16 | sets the flag only and returns the object |
| `Capabilities.SoftDelete.SetDeletedBy` | BruteForce.Domain/Interfaces/ISoftDelete.cs:18-22 | sets `DeletedBy` only and returns the object |
| `Capabilities.SoftDelete.SetDeletedDate` | BruteForce.Domain/Interfaces/ISoftDelete.cs:24-28 | sets `DeletedDate` only and returns the object |
| `Capabilities.DeleteThenRestore` | BruteForce.Domain/Interfaces/ISoftDelete.cs:12-16 | deleting and then restoring leaves the object not deleted, with its deletion stamps kept |
| `Capabilities.AuditCreation.SetCreatedBy` | BruteForce.Domain/Interfaces/IAuditCreation.cs:11-15 | sets `CreatedBy` only and returns the object |
| `Capabilities.AuditCreation.SetCreatedDate` | BruteForce.Domain/Interfaces/IAuditCreation.cs:17-21 | sets `CreatedDate` only and returns the object |
| `Capabilities.CreatedByTwice` | BruteForce.Domain/Interfaces/IAuditCreation.cs:11-15 | the last `SetCreatedBy` wins |
| `Capabilities.AuditUpdate.SetUpdatedBy` | BruteForce.Domain/Interfaces/IAuditUpdate.cs:9-13 | sets `UpdatedBy` to the given value, `null` included, and returns the object |
| `Capabilities.AuditUpdate.SetUpdatedDate` | BruteForce.Domain/Interfaces/IAuditUpdate.cs:15-19 | sets `UpdatedDate` to the given value, `null` included, and returns the object |
| `Capabilities.UpdatedDateTwice` | BruteForce.Domain/Interfaces/IAuditUpdate.cs:15-19 | the last `SetUpdatedDate` wins, even when it is `null` |
| `Capabilities.Approvable.Approve` | BruteForce.Domain/Interfaces/IApprovable.cs:10-16 | marks the object approved and records approver and date exactly as given |
| `Capabilities.ApproveTwice` | BruteForce.Domain/Interfaces/IApprovable.cs:10-16 | approval cannot be undone by approving again; the last approver and date win |
| `Paging.GetPage` | BruteForce.Domain/Extensions/PagingExtension.cs:15-26 | a page number below 1 throws first, then a page size below 1; otherwise the page is the slice starting at `pageSize * (pageNumber - 1)`, at most `pageSize` long, cut short by the end of the input |
| `Paging.OffsetIsProduct` | BruteForce.Domain/Extensions/PagingExtension.cs:23 | the skip counted page by page equals `pageSize * (pageNumber - 1)` |
| `Paging.SkipTakeIsSlice` | BruteForce.Domain/Extensions/PagingExtension.cs:25 | `Skip(skip).Take(count)` is a slice of the input |
| `Paging.FirstPageIsPrefix` | BruteForce.Domain/Extensions/PagingExtension.cs:15-26 | page 1 is the prefix of length `min(pageSize, count)` |
| `Paging.PagesArePrefix` | BruteForce.Domain/Extensions/PagingExtension.cs:15-26 | pages 1..k, concatenated, are exactly the prefix of length `min(k * pageSize, count)`: pages neither overlap nor leave gaps |
| `Paging.PagesAreRunningPrefix` | BruteForce.Domain/Extensions/PagingExtension.cs:23-25 | the same, with the skip counted page by page |
| `Repositories.MarkDeletedStamps` | BruteForce.Infrastructure/Services/Repository.cs:90-93 | the soft-deletion setters mark the row deleted by the actor at `now` and leave key, payload and audit stamps alone |
| `Repositories.ExecuteDelete` | BruteForce.Infrastructure/Services/Repository.cs:97-99 | `ExecuteDeleteAsync` keeps exactly the rows the filter does not select, each from the table, and removes as many rows as the filter selects |
| `Repositories.ExecuteUpdate` | BruteForce.Infrastructure/Services/Repository.cs:158-159 | `ExecuteUpdateAsync` keeps the row order and count; it applies the setter to the matching rows and leaves the others alone |
| `Repositories.Stamped` | BruteForce.Infrastructure/Services/Repository.cs:72-78 | auditable entities get the creation stamps; other entities are stored as given |
| `Repositories.Count` | BruteForce.Infrastructure/Services/Repository.cs:30-31 | the number of rows, which under the key constraint is the number of distinct keys |
| `Repositories.KeysCounted` | BruteForce.Infrastructure/Services/Repository.cs:30-31 | rows with unique keys are as many as their keys |
| `Repositories.GetAll` | BruteForce.Infrastructure/Services/Repository.cs:48-49 | every row, as many as `Count`; the same as `FindAll` with a condition that always holds |
| `Repositories.FindAll` | BruteForce.Infrastructure/Services/Repository.cs:33-34 | exactly the rows satisfying the condition, no more than `Count`; its first row is what `Find` returns for the same condition |
| `Repositories.Find` | BruteForce.Infrastructure/Services/Repository.cs:39-40 | the first row satisfying the condition, or `null` when none does |
| `Repositories.FindById` | BruteForce.Infrastructure/Services/Repository.cs:36-37 | `null` exactly when no stored row has the id; otherwise a stored row with that id |
| `Repositories.FindsStoredRow` | BruteForce.Infrastructure/Services/Repository.cs:36-37 | with unique keys, every stored row is what a lookup of its id returns |
| `Repositories.GetPaged` | BruteForce.Infrastructure/Services/Repository.cs:42-43 | for page numbers from 0 and page sizes from 1, the page `pageNumber + 1` of `GetPageAsync` over the table in its sequence order, so numbering starts at 0; never more than `pageSize` rows; for a negative offset or size, what LINQ over a sequence gives (see Left out) |
| `Repositories.GetFilteredPaged` | BruteForce.Infrastructure/Services/Repository.cs:45-46 | for page numbers from 0 and page sizes from 1, the page `pageNumber + 1` of `GetPageAsync` over the matching rows in table order; never more than `pageSize` rows, each stored and satisfying the condition; for a negative offset or size, what LINQ over a sequence gives (see Left out) |
| `Repositories.Repository.constructor` | BruteForce.Infrastructure/Services/Repository.cs:13-24 | the actor, the time and the capabilities are fixed once; the table starts as given |
| `Repositories.Repository.Add` | BruteForce.Infrastructure/Services/Repository.cs:51-62 | `null` throws `RepositoryException`; a duplicate key is refused and nothing changes; otherwise the (stamped) entity is appended and 1 row is reported |
| `Repositories.Repository.AddRange` | BruteForce.Infrastructure/Services/Repository.cs:64-83 | `null` throws; an empty sequence returns 0 and changes nothing; otherwise all stamped entities are appended together, or none when a key would repeat |
| `Repositories.Repository.RemoveById` | BruteForce.Infrastructure/Services/Repository.cs:85-100 | returns the number of rows with the id; a soft-delete table stamps them deleted by the actor at `now`; any other table drops them |
| `Repositories.Repository.Remove` | BruteForce.Infrastructure/Services/Repository.cs:102-106 | `null` throws; otherwise it is `RemoveById` of the entity's id |
| `Repositories.Repository.RemoveRange` | BruteForce.Infrastructure/Services/Repository.cs:108-131 | `null` throws; empty returns 0; otherwise `RemoveById` applied to every row whose id is among the entities' ids, as one statement |
| `Repositories.Repository.Update` | BruteForce.Infrastructure/Services/Repository.cs:133-142 | `null` throws; an entity whose key is not stored is refused; otherwise the stored row is replaced in place and 1 is reported |
| `Repositories.Repository.UpdateRange` | BruteForce.Infrastructure/Services/Repository.cs:144-156 | `null` throws; empty returns 0; with distinct keys that are all stored, each stored row is replaced by its entity; otherwise nothing changes |
| `Repositories.Repository.UpdateWhere` | BruteForce.Infrastructure/Services/Repository.cs:158-159 | the setter is applied to every row satisfying the condition, and their number is returned; a setter that would duplicate a key is refused |
| `Repositories.AppendKeepsUniqueIds` | BruteForce.Infrastructure/Services/Repository.cs:80-82 | with unique stored keys, appending rows keeps the keys unique exactly when the new keys are distinct and none is stored yet: the condition under which a save of `Add`/`AddRange` succeeds |
| `Repositories.UpdateKeepsIds` | BruteForce.Infrastructure/Services/Repository.cs:90-95 | an update that keeps ids keeps the set of ids |
| `Repositories.WhereKeepsUniqueIds` | BruteForce.Infrastructure/Services/Repository.cs:97-99 | deleting rows keeps the remaining keys unique |
| `Repositories.ReplaceKeepsIds` | BruteForce.Infrastructure/Services/Repository.cs:139-141 | replacing rows by entities with the same keys keeps every key in place |
| `Repositories.SameRowFound` | BruteForce.Infrastructure/Services/Repository.cs:36-37 | two tables holding the same row with a unique key return it from a lookup alike |
| `Repositories.SameIds` | BruteForce.Infrastructure/Services/Repository.cs:36-37 | two tables with the same ids in the same places hold the same set of keys |
| `Repositories.SoftRemoveRange` | BruteForce.Infrastructure/Services/Repository.cs:116-125 | soft deletion keeps the row count, the keys and the number of matches; each matching row is found stamped, and the other rows are unchanged |
| `Repositories.SoftRemoveById` | BruteForce.Infrastructure/Services/Repository.cs:86-95 | after a soft deletion by id, the row is still found, and it is the old row marked deleted by the actor at `now` |
| `Repositories.SoftRemoveRestamps` | BruteForce.Infrastructure/Services/Repository.cs:86-95 | soft deletion does not skip rows that are already deleted: a second deletion overwrites the stamps of the first |
| `Repositories.HardRemoveRange` | BruteForce.Infrastructure/Services/Repository.cs:127-129 | hard deletion shrinks the table by the number of matches; the removed keys are no longer found and the other rows are unchanged |
| `Repositories.HardRemoveById` | BruteForce.Infrastructure/Services/Repository.cs:97-99 | after a hard deletion by id, the id is no longer found and the other rows are unchanged |
| `Repositories.AddThenFind` | BruteForce.Infrastructure/Services/Repository.cs:51-83 | after an insert, the count grows by the number added, each added row is found by its key, and other keys are found as before |
| `Repositories.UpdateThenFind` | BruteForce.Infrastructure/Services/Repository.cs:133-156 | after an update, each entity is found by its key, other keys are found as before, and the count and keys do not change |
| `RealTime.Elements` | BruteForce.RealTime/Implementations/RealTimeUserStorage.cs:108 | the set of a list's elements |
| `RealTime.ConnectionIdByUserId` | BruteForce.RealTime/Implementations/RealTimeUserStorage.cs:60-71 | `null` exactly when the user is not registered; otherwise the connection registered for it |
| `RealTime.FindsStoredUser` | BruteForce.RealTime/Implementations/RealTimeUserStorage.cs:60-71 | every registered entry is what a lookup of its user returns |
| `RealTime.UserIdByConnectionId` | BruteForce.RealTime/Implementations/RealTimeUserStorage.cs:73-84 | `null` when no user is on the connection; otherwise the first user in enumeration order that is on it |
| `RealTime.GroupOf` | BruteForce.RealTime/Implementations/RealTimeUserStorage.cs:50-55 | the first group, in enumeration order, whose members include the user, or `null` |
| `RealTime.GroupNameByConnectionId` | BruteForce.RealTime/Implementations/RealTimeUserStorage.cs:18-37 | `null` when no user is on the connection; otherwise the first group, in enumeration order, of the first user on the connection (`null` when that user is in no group) |
| `RealTime.GroupNameByUserId` | BruteForce.RealTime/Implementations/RealTimeUserStorage.cs:39-58 | `null` for an unregistered user, even when some group lists it; otherwise the user's first group |
| `RealTime.Members` | BruteForce.RealTime/Implementations/RealTimeUserStorage.cs:90 | `TryGetValue`: not found exactly when no group has the name; otherwise that group's members |
| `RealTime.ConnectionIdsByGroupName` | BruteForce.RealTime/Implementations/RealTimeUserStorage.cs:86-100 | empty for an unknown group; otherwise every connection returned belongs to a member, and every registered member's connection is returned |
| `RealTime.MemberConnections` | BruteForce.RealTime/Implementations/RealTimeUserStorage.cs:94 | the connections of exactly the registered members of a set: each listed connection is a member's, and each registered member's connection is listed |
| `RealTime.ConnectionsAreOfMembers` | BruteForce.RealTime/Implementations/RealTimeUserStorage.cs:94 | every selected connection belongs to a registered member |
| `RealTime.ConnectionsCoverMembers` | BruteForce.RealTime/Implementations/RealTimeUserStorage.cs:94 | every registered member's connection is selected |
| `RealTime.UserAdded` | BruteForce.RealTime/Implementations/RealTimeUserStorage.cs:159-165 | `Dictionary.Add` throws on a key already present; otherwise it appends the entry |
| `RealTime.UserRemoved` | BruteForce.RealTime/Implementations/RealTimeUserStorage.cs:167-173 | the user is gone afterwards, and the other entries stay |
| `RealTime.AddedInOrder` | BruteForce.RealTime/Implementations/RealTimeUserStorage.cs:175-184 | entries are added in order up to the first duplicate, which throws; the entries already added stay; user ids stay unique, so the throw comes exactly at the first entry whose key is already present |
| `RealTime.UsersRemoved` | BruteForce.RealTime/Implementations/RealTimeUserStorage.cs:186-195 | the listed users are gone, and the others stay |
| `RealTime.UserRemovedKeepsOrder` | BruteForce.RealTime/Implementations/RealTimeUserStorage.cs:167-173 | removing a user from two runs of entries is removing it from each run and joining them: the entries that stay keep their order |
| `RealTime.UsersRemovedKeepsOrder` | BruteForce.RealTime/Implementations/RealTimeUserStorage.cs:186-195 | the same for removing a list of users |
| `RealTime.AppendKeepsUniqueUsers` | BruteForce.RealTime/Implementations/RealTimeUserStorage.cs:163 | adding a key that is not present keeps the user ids unique |
| `RealTime.WithMembers` | BruteForce.RealTime/Implementations/RealTimeUserStorage.cs:120 | the indexer setter: afterwards the group has exactly those members; the group names gain the name; other groups are unchanged; names stay unique |
| `RealTime.ReplacedGroup` | BruteForce.RealTime/Implementations/RealTimeUserStorage.cs:120 | replacing an existing group's entry keeps the names and the other groups |
| `RealTime.AppendedGroup` | BruteForce.RealTime/Implementations/RealTimeUserStorage.cs:120 | appending a new group keeps the other groups and adds the name |
| `RealTime.WithMembersTwice` | BruteForce.RealTime/Implementations/RealTimeUserStorage.cs:120 | setting a group's members twice is setting them once to the second value |
| `RealTime.Joined` | BruteForce.RealTime/Implementations/RealTimeUserStorage.cs:115-124 | as written: `KeyNotFoundException` exactly when the group does not exist; otherwise the members gain the users and nothing else changes |
| `RealTime.Left` | BruteForce.RealTime/Implementations/RealTimeUserStorage.cs:126-135 | as written: `KeyNotFoundException` exactly when the group does not exist; otherwise the members lose the users and nothing else changes |
| `RealTime.JoinIsIdempotent` | BruteForce.RealTime/Implementations/RealTimeUserStorage.cs:115-124 | joining twice is joining once |
| `RealTime.LeaveIsIdempotent` | BruteForce.RealTime/Implementations/RealTimeUserStorage.cs:126-135 | leaving twice is leaving once |
| `RealTime.AsWrittenNoGroupEverExists` | BruteForce.RealTime/Implementations/RealTimeUserStorage.cs:119 | from empty storage, joining or leaving any group throws, so no group can ever have connections or members |
| `RealTime.JoinedCorrected` | BruteForce.RealTime/Implementations/RealTimeUserStorage.cs:119-122 | the intended join: the group is created when missing, and the members gain the users |
| `RealTime.LeftCorrected` | BruteForce.RealTime/Implementations/RealTimeUserStorage.cs:130-133 | the intended leave: a missing group is a no-op; otherwise the members lose the users |
| `RealTime.CorrectedJoinThenFind` | BruteForce.RealTime/Implementations/RealTimeUserStorage.cs:39-58 | after the intended join, a registered user is found in a group and is among that group's members |
| `RealTime.WhereKeepsUniqueUsers` | BruteForce.RealTime/Implementations/RealTimeUserStorage.cs:167-173 | removals keep user ids unique |
| `RealTime.AddUserThenLookup` | BruteForce.RealTime/Implementations/RealTimeUserStorage.cs:159-165 | after adding a new user, it is found with its connection, and other users are found as before |
| `RealTime.RemoveUserThenLookup` | BruteForce.RealTime/Implementations/RealTimeUserStorage.cs:167-173 | after a removal, the user is not found, others are found as before, and removing an absent user changes nothing |
| `RealTime.RemoveUsersThenLookup` | BruteForce.RealTime/Implementations/RealTimeUserStorage.cs:186-195 | after removing a list of users, none of them is found and the others are found as before |
| `RealTime.RemovedOneMore` | BruteForce.RealTime/Implementations/RealTimeUserStorage.cs:190-193 | removing the users of a list one at a time equals removing the whole list |
| `RealTime.RealTimeUserStorage.constructor` | BruteForce.RealTime/Implementations/RealTimeUserStorage.cs:9-11 | both dictionaries start empty |
| `RealTime.RealTimeUserStorage.GetUsersMapping` | BruteForce.RealTime/Implementations/RealTimeUserStorage.cs:13-16 | the user dictionary as it stands |
| `RealTime.RealTimeUserStorage.GetGroupNameByConnectionId` | BruteForce.RealTime/Implementations/RealTimeUserStorage.cs:18-37 | `GroupNameByConnectionId` of the current dictionaries |
| `RealTime.RealTimeUserStorage.GetGroupNameByUserId` | BruteForce.RealTime/Implementations/RealTimeUserStorage.cs:39-58 | `GroupNameByUserId` of the current dictionaries |
| `RealTime.RealTimeUserStorage.GetConnectionIdByUserId` | BruteForce.RealTime/Implementations/RealTimeUserStorage.cs:60-71 | `ConnectionIdByUserId` of the current users |
| `RealTime.RealTimeUserStorage.GetUserIdByConnectionId` | BruteForce.RealTime/Implementations/RealTimeUserStorage.cs:73-84 | `UserIdByConnectionId` of the current users |
| `RealTime.RealTimeUserStorage.GetConnectionIdsByGroupName` | BruteForce.RealTime/Implementations/RealTimeUserStorage.cs:86-100 | `ConnectionIdsByGroupName` of the current dictionaries |
| `RealTime.RealTimeUserStorage.GetUserIdsByGroupName` | BruteForce.RealTime/Implementations/RealTimeUserStorage.cs:102-113 | empty for an unknown group; otherwise a list without repeats whose elements are exactly the group's members |
| `RealTime.RealTimeUserStorage.AddUserToGroup` | BruteForce.RealTime/Implementations/RealTimeUserStorage.cs:115-124 | the groups become `Joined` of the user, or the method throws `KeyNotFoundException` and nothing changes |
| `RealTime.RealTimeUserStorage.RemoveUserFromGroup` | BruteForce.RealTime/Implementations/RealTimeUserStorage.cs:126-135 | the groups become `Left` of the user, or the method throws and nothing changes |
| `RealTime.RealTimeUserStorage.AddUsersToGroup` | BruteForce.RealTime/Implementations/RealTimeUserStorage.cs:137-146 | the same as `AddUserToGroup`, for every listed user |
| `RealTime.RealTimeUserStorage.RemoveUsersFromGroup` | BruteForce.RealTime/Implementations/RealTimeUserStorage.cs:148-157 | the same as `RemoveUserFromGroup`, for every listed user |
| `RealTime.RealTimeUserStorage.AddUser` | BruteForce.RealTime/Implementations/RealTimeUserStorage.cs:159-165 | the users become `UserAdded`, or the method throws on a duplicate and nothing changes |
| `RealTime.RealTimeUserStorage.RemoveUser` | BruteForce.RealTime/Implementations/RealTimeUserStorage.cs:167-173 | the users become `UserRemoved` |
| `RealTime.RealTimeUserStorage.AddUsers` | BruteForce.RealTime/Implementations/RealTimeUserStorage.cs:175-184 | the users become those of `AddedInOrder`; the exception thrown, if any, is the one it names |
| `RealTime.RealTimeUserStorage.RemoveUsers` | BruteForce.RealTime/Implementations/RealTimeUserStorage.cs:186-195 | the users become `UsersRemoved` of the list |
| `ListExtensions.Percentage` | BruteForce.Application/Extensions/ListExtensions.cs:71-75 | 0 for a zero total; otherwise `count * 100 / total` rounded toward zero, described by its bounds and sign |
| `ListExtensions.EmptyIsZero` | BruteForce.Application/Extensions/ListExtensions.cs:71-75 | no items is 0 percent |
| `ListExtensions.AllIsHundred` | BruteForce.Application/Extensions/ListExtensions.cs:71-75 | as many items as the total is 100 percent |
| `ListExtensions.InRange` | BruteForce.Application/Extensions/ListExtensions.cs:71-75 | a part of a positive total is between 0 and 100 percent |
| `ListExtensions.Monotonic` | BruteForce.Application/Extensions/ListExtensions.cs:71-75 | more items never give a smaller percentage |
| `Models.ErrorText` | BruteForce.Application/Models/Response.cs:20-26 | no failures give the empty text |
| `Models.ErrorTextAppend` | BruteForce.Application/Models/Response.cs:23 | the text of two lists of failures is the concatenation of their texts |
| `Models.LinesOfTerminatedLine` | BruteForce.Application/Models/Response.cs:23 | a line followed by a line terminator splits off as one line |
| `Models.ErrorTextLines` | BruteForce.Application/Models/Response.cs:20-26 | splitting the error text into lines gives back the failure messages in order |
| `Models.Response.Success` | BruteForce.Application/Models/Response.cs:14-18 | a success carries the data, with no errors and no user name |
| `Models.Response.Fail` | BruteForce.Application/Models/Response.cs:20-26 | a failure carries no data, and its error text is each message followed by a line terminator |
| `Models.Response.SetUsername` | BruteForce.Application/Models/Response.cs:32-36 | sets the user name on the response itself and returns it |

## Left out

- **Entity Framework change tracking.** `MarkAs*`, `DbSet` and `AsQueryable` are not modelled, nor is the difference between tracked and `AsNoTracking` reads. The model works on stored row values.
- **Query filters.** Soft-deleted, tenant and unapproved rows are not filtered out on reads, because the repository never filters them.
- **The caller's entity object.** `AddAsync` stamps the caller's own object in place. `Repository.Add` stores the stamped value and does not model that aliasing; `Entities.StampCreation` models the in-place stamping itself.
- **Key generation.** Keys generated by the database are not modelled: every row is added with its key.
- **Failing saves.** Database failures other than a duplicate or missing key are not modelled. The same holds for concurrency conflicts and the cancellation token.
- **32-bit integers.** Arithmetic is unbounded:
  - `ListExtensions.Percentage`: the overflow of `count * 100` is not modelled;
  - `Paging.GetPage`: the overflow of `pageSize * (pageNumber - 1)` is not modelled;
  - `Repositories.GetPaged` and `Repositories.GetFilteredPaged`: the overflow of `pageSize * pageNumber` is not modelled.
- Repositories.GetPaged, Repositories.GetFilteredPaged: paging follows LINQ over a sequence, so a negative skip (`pageSize * pageNumber < 0`) is read as no skip and a page size of 0 or less gives no rows. The query is translated to SQL for SQL Server or PostgreSQL, which reject a negative offset or row count with a database error. That error is not modelled. The clauses for those arguments describe LINQ, not the program.
- Repositories.GetPaged, Repositories.GetFilteredPaged, Repositories.GetAll, Repositories.FindAll, Repositories.Find, Repositories.FindById: the table's sequence order stands for the order the database returns rows in. None of these queries has an `OrderBy`, so the database does not promise an order. Which page a row lands on, and which row `Find` returns when several match, depend on that order. The model does not capture that dependence.
- **Rounding in `GetPageAsync`.** The `Math.Ceiling` over `decimal` is dropped, because the product is already a whole number.
- **Line terminator.** `Environment.NewLine` is taken as `"\n"`. The Windows value is not modelled.
- **Dictionary order after removals.** A .NET `Dictionary` reuses freed slots, so an entry added after a removal can appear earlier in enumeration order. The model appends such an entry at the end. This affects which user or group the `FirstOrDefault` lookups find first when several qualify.
- **HashSet order.** `GetUserIdsByGroupName` copies a `HashSet`, and the order of the copy is not fixed.
- **`GetUsersMapping`.** The source returns the live dictionary, so a caller can change it; the model returns its value.
- **Non-nullable parameters.** Parameters declared non-nullable are taken at their annotation, which C# only warns about: strings, lists and collection elements are never `null` here. So the `ArgumentNullException` of, say, `RemoveUser(null)` and the `NullReferenceException` of a `null` element in `RemoveRange` are not modelled.
- **Concurrency.** The locks and the process-wide static dictionaries are modelled as one storage object used by one thread at a time.
- **Interface mismatch.** `IRealTimeUserStorage` declares a different set of members than the class implements. The model follows the class.
- **Other files.** The Excel export in `ListExtensions`, password hashing, token and cookie services, dependency injection and the SignalR hub are not part of this model.
- **`Repositories.Repository.AddRange`: atomic save.** A batch containing a duplicate key is refused as a whole, as one `SaveChangesAsync` would be. The partial state of the change tracker after the failure is not modelled.
- **`Repositories.Repository.UpdateWhere`: setter.** The EF `SetPropertyCalls` expression is modelled as a function on rows.

## Findings

| source | as written | input that shows it | evidently intended | confidence | as-written member | corrected member |
|---|---|---|---|---|---|---|
| BruteForce.RealTime/Implementations/RealTimeUserStorage.cs:119-122 | `_groupUsers[groupName] is null` reads the indexer, which throws `KeyNotFoundException` for a group that does not exist yet; the `null` test never creates the group | empty storage, `AddUserToGroup("g", "u")` | create the group when it is missing, then add the user | high, not executed | `RealTime.AsWrittenNoGroupEverExists` | `RealTime.CorrectedJoinThenFind` |
| BruteForce.RealTime/Implementations/RealTimeUserStorage.cs:141-144 | the same indexer read in `AddUsersToGroup` | empty storage, `AddUsersToGroup("g", ["u"])` | create the group when it is missing, then add the users | high, not executed | `RealTime.Joined` | `RealTime.JoinedCorrected` |
| BruteForce.RealTime/Implementations/RealTimeUserStorage.cs:130-133 | `RemoveUserFromGroup` and `RemoveUsersFromGroup` throw for a missing group instead of returning as the `null` test intends | empty storage, `RemoveUserFromGroup("g", "u")` | do nothing when the group is missing | high, not executed | `RealTime.Left` | `RealTime.LeftCorrected` |

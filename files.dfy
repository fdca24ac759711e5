/** The `files` table of convex/files.ts and the three handlers gated by
    `hasAccessToOrg`: `createFile`, `getFiles` and `deleteFile`. Each handler
    checks first and acts only when every check has passed. */
module Files {
  import opened Convex
  import opened Access

  /** The `fileTypes` validator of the schema. */
  datatype FileType = Image | Pdf | Csv

  /** A row of the `files` table. `fileId` is the opaque storage handle of
      the uploaded content; `orgId` is the scope the row belongs to. */
  datatype File = File(name: string, fileId: string, orgId: string, fileType: FileType)

  /** A row as a query returns it: with its table id. */
  datatype Doc = Doc(id: nat, file: File)

  /** The `files` table, keyed by row id. */
  type Table = map<nat, File>

  /** Every row id is below `bound`, so `bound` is a fresh id. */
  predicate IdsBelow(table: Table, bound: nat)
  {
    forall id :: id in table ==> id < bound
  }

  /** The rows with the given `orgId` among the ids below `n`, in ascending id
      (that is, creation) order: the `by_orgId` index scan followed by
      `collect()`. */
  function Collect(table: Table, orgId: string, n: nat): (r: seq<Doc>)
    ensures forall k :: 0 <= k < |r| ==>
      r[k].id < n && r[k].id in table && table[r[k].id] == r[k].file && r[k].file.orgId == orgId
    ensures forall k, l :: 0 <= k < l < |r| ==> r[k].id < r[l].id
    ensures forall id :: id < n && id in table && table[id].orgId == orgId ==> Doc(id, table[id]) in r
  {
    if n == 0 then []
    else
      var rest := Collect(table, orgId, n - 1);
      if n - 1 in table && table[n - 1].orgId == orgId then rest + [Doc(n - 1, table[n - 1])] else rest
  }

  /** `getFiles`: no identity, or no access to `orgId`, yields the empty list
      rather than an error; otherwise exactly the rows of that scope. A failed
      user lookup propagates. */
  function GetFiles(users: Directory, identity: Option<string>, table: Table, nextId: nat, orgId: string)
    : (r: Result<seq<Doc>>)
    requires IdsBelow(table, nextId)
    ensures identity.None? ==> r == Success([])
    ensures identity.Some? ==> (r.Failure? <==> identity.value !in users)
    ensures r.Failure? ==> identity.Some? && r.error == UserNotFound(identity.value)
    ensures r.Success? ==> forall k, l :: 0 <= k < l < |r.value| ==> r.value[k].id < r.value[l].id
    ensures identity.Some? && identity.value in users && !HasAccess(users[identity.value], orgId)
      ==> r == Success([])
    ensures identity.Some? && identity.value in users && HasAccess(users[identity.value], orgId) ==>
      && r.Success?
      && (forall d :: d in r.value ==> d.id in table && table[d.id] == d.file && d.file.orgId == orgId)
      && (forall id :: id in table && table[id].orgId == orgId ==> Doc(id, table[id]) in r.value)
  {
    match identity
    case None => Success([])
    case Some(token) =>
      match HasAccessToOrg(users, token, orgId)
      case Failure(e) => Failure(e)
      case Success(granted) => if granted then Success(Collect(table, orgId, nextId)) else Success([])
  }

  /** The checks of `createFile`, in order: identity, user lookup, access to
      the requested scope. */
  function CreateCheck(users: Directory, identity: Option<string>, orgId: string): (r: Outcome)
    ensures r.Pass? <==> identity.Some? && identity.value in users && HasAccess(users[identity.value], orgId)
    ensures identity.None? ==> r == Fail(ConvexError(LoginToUpload))
    ensures identity.Some? && identity.value !in users ==> r == Fail(UserNotFound(identity.value))
    ensures identity.Some? && identity.value in users && !HasAccess(users[identity.value], orgId)
      ==> r == Fail(ConvexError(NoOrgAccess))
  {
    match identity
    case None => Fail(ConvexError(LoginToUpload))
    case Some(token) =>
      match HasAccessToOrg(users, token, orgId)
      case Failure(e) => Fail(e)
      case Success(granted) => if granted then Pass else Fail(ConvexError(NoOrgAccess))
  }

  /** The checks of `deleteFile`, in order: identity, existence of the row,
      user lookup, access to the scope stored in the row. */
  function DeleteCheck(users: Directory, identity: Option<string>, table: Table, id: nat): (r: Outcome)
    ensures r.Pass? <==>
      identity.Some? && id in table && identity.value in users && HasAccess(users[identity.value], table[id].orgId)
    ensures identity.None? ==> r == Fail(ConvexError(NoOrgAccess))
    ensures identity.Some? && id !in table ==> r == Fail(ConvexError(FileMissing))
    ensures identity.Some? && id in table && identity.value !in users ==> r == Fail(UserNotFound(identity.value))
    ensures identity.Some? && id in table && identity.value in users && !HasAccess(users[identity.value], table[id].orgId)
      ==> r == Fail(ConvexError(NoDeleteAccess))
  {
    match identity
    case None => Fail(ConvexError(NoOrgAccess))
    case Some(token) =>
      if id !in table then Fail(ConvexError(FileMissing))
      else
        match HasAccessToOrg(users, token, table[id].orgId)
        case Failure(e) => Fail(e)
        case Success(granted) => if granted then Pass else Fail(ConvexError(NoDeleteAccess))
  }

  /** Rows stored at or above `n` do not affect the scan of the ids below `n`. */
  lemma {:induction false} CollectIgnoresFrom(table: Table, orgId: string, n: nat, m: nat, f: File)
    requires n <= m
    ensures Collect(table[m := f], orgId, n) == Collect(table, orgId, n)
  {
    if n > 0 {
      CollectIgnoresFrom(table, orgId, n - 1, m, f);
    }
  }

  /** A successful `createFile` makes the new row the last one `getFiles`
      lists for its scope, after exactly the rows listed before. */
  lemma CreateThenListed(users: Directory, identity: Option<string>, table: Table, nextId: nat, f: File)
    requires IdsBelow(table, nextId)
    requires CreateCheck(users, identity, f.orgId).Pass?
    ensures IdsBelow(table[nextId := f], nextId + 1)
    ensures GetFiles(users, identity, table[nextId := f], nextId + 1, f.orgId)
         == Success(GetFiles(users, identity, table, nextId, f.orgId).value + [Doc(nextId, f)])
  {
    CollectIgnoresFrom(table, f.orgId, nextId, nextId, f);
  }

  /** Removing one row hides that row, and only that row, from every listing
      of every caller. */
  lemma RemovalHidesOnlyThatRow(users: Directory, viewer: Option<string>, table: Table, nextId: nat,
                                orgId: string, id: nat, d: Doc)
    requires IdsBelow(table, nextId)
    ensures IdsBelow(table - {id}, nextId)
    ensures GetFiles(users, viewer, table - {id}, nextId, orgId).Success?
        == GetFiles(users, viewer, table, nextId, orgId).Success?
    ensures GetFiles(users, viewer, table - {id}, nextId, orgId).Success? ==>
      (d in GetFiles(users, viewer, table - {id}, nextId, orgId).value
       <==> d in GetFiles(users, viewer, table, nextId, orgId).value && d.id != id)
  {
    var before := GetFiles(users, viewer, table, nextId, orgId);
    var after := GetFiles(users, viewer, table - {id}, nextId, orgId);
    if after.Success? {
      if d in after.value {
        assert d == Doc(d.id, table[d.id]);
      }
      if d in before.value && d.id != id {
        assert d == Doc(d.id, (table - {id})[d.id]);
      }
    }
  }

  /** Whatever `getFiles` shows a caller lies in a scope the caller may use. */
  lemma ListedImpliesAccess(users: Directory, viewer: Option<string>, table: Table, nextId: nat,
                            orgId: string, d: Doc)
    requires IdsBelow(table, nextId)
    requires GetFiles(users, viewer, table, nextId, orgId).Success?
    requires d in GetFiles(users, viewer, table, nextId, orgId).value
    ensures viewer.Some? && viewer.value in users && HasAccess(users[viewer.value], d.file.orgId)
    ensures d.file.orgId == orgId && d.id in table
  {
  }

  /** After a successful `deleteFile`, the same call fails because the row no
      longer exists. */
  lemma SecondDeleteFails(users: Directory, identity: Option<string>, table: Table, id: nat)
    requires DeleteCheck(users, identity, table, id).Pass?
    ensures DeleteCheck(users, identity, table - {id}, id) == Fail(ConvexError(FileMissing))
  {
  }

  /** `deleteFile` decides access on the scope stored in the row: two tables
      that agree on the row's presence and scope give the same verdict. */
  lemma DeleteUsesStoredScope(users: Directory, identity: Option<string>, t1: Table, t2: Table, id: nat)
    requires id in t1 <==> id in t2
    requires id in t1 ==> t1[id].orgId == t2[id].orgId
    ensures DeleteCheck(users, identity, t1, id) == DeleteCheck(users, identity, t2, id)
  {
  }

  /** In the handlers, a registered caller may create files in, and delete
      files of, any scope that is a slice of the caller's own token. */
  lemma CallerTokenSliceUsable(users: Directory, t: string, i: nat, j: nat, table: Table, id: nat)
    requires WellKeyed(users) && t in users
    requires i <= j <= |t|
    ensures CreateCheck(users, Some(t), t[i..j]) == Pass
    ensures id in table && table[id].orgId == t[i..j] ==> DeleteCheck(users, Some(t), table, id) == Pass
  {
    CallerTokenSliceGranted(users, t, i, j);
  }

  /** The `files` table together with the users table it consults. */
  class FileStore {
    const users: Directory
    var files: Table
    var nextId: nat

    /** Every stored id is below `nextId`, so `nextId` is never taken, and
        every user record is filed under its own token. */
    predicate Valid()
      reads this
    {
      IdsBelow(files, nextId) && WellKeyed(users)
    }

    constructor (users: Directory)
      requires WellKeyed(users)
      ensures Valid() && this.users == users && files == map[] && nextId == 0
    {
      this.users := users;
      files := map[];
      nextId := 0;
    }

    /** `createFile`: insert the row under a fresh id once the caller is
        known and has access to `orgId`; otherwise throw and leave the table
        as it was. */
    method CreateFile(identity: Option<string>, name: string, fileId: string, orgId: string, fileType: FileType)
      returns (r: Outcome)
      requires Valid()
      modifies this`files, this`nextId
      ensures Valid()
      ensures r == CreateCheck(users, identity, orgId)
      ensures r.Fail? ==> files == old(files) && nextId == old(nextId)
      ensures r.Pass? ==>
        old(nextId) !in old(files) && files == old(files)[old(nextId) := File(name, fileId, orgId, fileType)]
      ensures r.Pass? ==> nextId == old(nextId) + 1
    {
      if identity.None? {
        return Fail(ConvexError(LoginToUpload));
      }
      var access := HasAccessToOrg(users, identity.value, orgId);
      if access.Failure? {
        return Fail(access.error);
      }
      if !access.value {
        return Fail(ConvexError(NoOrgAccess));
      }
      files := files[nextId := File(name, fileId, orgId, fileType)];
      nextId := nextId + 1;
      r := Pass;
    }

    /** `deleteFile`: remove the row once the caller is known, the row exists
        and the caller has access to the row's own scope; otherwise throw and
        leave the table as it was. */
    method DeleteFile(identity: Option<string>, id: nat) returns (r: Outcome)
      requires Valid()
      modifies this`files
      ensures Valid() && nextId == old(nextId)
      ensures r == DeleteCheck(users, identity, old(files), id)
      ensures r.Pass? ==> id in old(files) && files == old(files) - {id}
      ensures r.Fail? ==> files == old(files)
    {
      if identity.None? {
        return Fail(ConvexError(NoOrgAccess));
      }
      if id !in files {
        return Fail(ConvexError(FileMissing));
      }
      var access := HasAccessToOrg(users, identity.value, files[id].orgId);
      if access.Failure? {
        return Fail(access.error);
      }
      if !access.value {
        return Fail(ConvexError(NoDeleteAccess));
      }
      files := files - {id};
      r := Pass;
    }
  }

  /** A caller of the store: deleting the same row twice in a row, the second
      call fails with "This file does not exist" whenever the first succeeded,
      and the table then lacks exactly that row. */
  method DeleteTwice(store: FileStore, identity: Option<string>, id: nat) returns (first: Outcome, second: Outcome)
    requires store.Valid()
    modifies store`files
    ensures store.Valid()
    ensures first.Pass? ==> second == Fail(ConvexError(FileMissing)) && store.files == old(store.files) - {id}
    ensures first.Fail? ==> store.files == old(store.files)
  {
    first := store.DeleteFile(identity, id);
    second := store.DeleteFile(identity, id);
  }

  /** A caller of the store: after a successful `createFile`, the creator's
      `getFiles` for that scope is the earlier listing followed by the new
      row, under the id that was free before the call. */
  method CreateThenList(store: FileStore, identity: Option<string>, f: File) returns (r: Outcome)
    requires store.Valid()
    modifies store`files, store`nextId
    ensures store.Valid()
    ensures r == CreateCheck(store.users, identity, f.orgId)
    ensures r.Pass? ==> store.nextId == old(store.nextId) + 1
    ensures r.Pass? ==>
      GetFiles(store.users, identity, store.files, store.nextId, f.orgId)
      == Success(GetFiles(store.users, identity, old(store.files), old(store.nextId), f.orgId).value
                 + [Doc(old(store.nextId), f)])
  {
    r := store.CreateFile(identity, f.name, f.fileId, f.orgId, f.fileType);
    if r.Pass? {
      CreateThenListed(store.users, identity, old(store.files), old(store.nextId), f);
    }
  }
}

/**
 * The credential repository (PasswordRepository): stamps timestamps on
 * writes and forwards to the table. Updates and deletes look a row up by
 * id only; they never compare its `userId` with anyone's.
 */
module PasswordRepository {
  import opened Wrappers
  import opened Entities
  import opened PasswordDao

  class PasswordRepository {
    const dao: PasswordTable

    ghost predicate Valid()
      reads this, dao
    {
      dao.Valid()
    }

    constructor (dao: PasswordTable)
      requires dao.Valid()
      ensures this.dao == dao && Valid()
    {
      this.dao := dao;
    }

    /** `getPasswordById`: the stored row with that id, or null. */
    function GetPasswordById(id: int): (r: Option<PasswordRecord>)
      reads this, dao
      requires Valid()
      ensures r.Some? <==> id in dao.rows
      ensures r.Some? ==> r.value == dao.rows[id] && r.value.id == id
    {
      dao.GetPasswordById(id)
    }

    /**
     * The search pass-throughs (`getAllPasswordsByUserId` and the seven
     * `searchPasswordsBy*`): the rows the query selects, newest first.
     */
    function Search(q: Query): (rows: seq<PasswordRecord>)
      reads this, dao
      ensures forall r :: r in rows <==> r in dao.rows.Values && Selects(q, r)
      ensures forall i, j :: 0 <= i < j < |rows| ==> rows[i].updateTime >= rows[j].updateTime
    {
      SelectLists(dao.rows, q);
      SelectNewestFirst(dao.rows, q);
      Select(dao.rows, q)
    }

    /**
     * `addPassword`: stores a new row owned by `userId` with both
     * timestamps `now`, and returns its id; looking that id up then yields
     * exactly the stored row.
     */
    method AddPassword(c: Credential, userId: int, now: int) returns (id: int)
      requires Valid()
      modifies dao
      ensures Valid()
      ensures id > 0 && id !in old(dao.rows) && id == old(dao.nextId) && dao.nextId == old(dao.nextId) + 1
      ensures dao.rows == old(dao.rows)[id := NewRecord(c, now, userId).(id := id)]
      ensures dao.GetPasswordById(id) == Some(dao.rows[id])
      ensures dao.rows[id].Content() == c && dao.rows[id].userId == userId
      ensures dao.rows[id].createTime == dao.rows[id].updateTime == now
    {
      id := dao.InsertPassword(NewRecord(c, now, userId));
    }

    /**
     * `updatePassword`: on an existing id, replaces the six content fields
     * and sets `updateTime` to `now`, keeping `id`, `createTime` and
     * `userId`; on a missing id, changes nothing.
     */
    method UpdatePassword(id: int, c: Credential, now: int)
      requires Valid()
      modifies dao
      ensures Valid()
      ensures id in old(dao.rows) ==> dao.rows == old(dao.rows)[id := WithContent(old(dao.rows)[id], c, now)]
      ensures id !in old(dao.rows) ==> dao.rows == old(dao.rows)
      ensures dao.nextId == old(dao.nextId)
    {
      var current := dao.GetPasswordById(id);
      if current.Some? {
        dao.UpdatePassword(WithContent(current.value, c, now));
      }
    }

    /** `deletePassword`: removes the row with that id and no other; a missing id changes nothing. */
    method DeletePassword(id: int)
      requires Valid()
      modifies dao
      ensures Valid()
      ensures dao.rows == old(dao.rows) - {id}
      ensures dao.nextId == old(dao.nextId)
    {
      var current := dao.GetPasswordById(id);
      if current.Some? {
        dao.DeletePassword(current.value);
      }
    }

    /**
     * `importPasswords`: inserts every row and returns one new id per row,
     * in order; the new ids are the next `|ps|` values of the counter.
     */
    method ImportPasswords(ps: seq<PasswordRecord>) returns (ids: seq<int>)
      requires Valid() && forall i :: 0 <= i < |ps| ==> ps[i].id == 0
      modifies dao
      ensures Valid() && dao.nextId == old(dao.nextId) + |ps|
      ensures |ids| == |ps| && forall i :: 0 <= i < |ids| ==> ids[i] == old(dao.nextId) + i
      ensures Appended(old(dao.rows), dao.rows, old(dao.nextId), ps)
    {
      ids := dao.InsertPasswords(ps);
    }
  }
}

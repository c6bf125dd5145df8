/**
 * The two stored entities: a credential record (table `passwords`) and a
 * user (table `users`). `java.util.Date` values are held as epoch milliseconds.
 */
module Entities {
  import opened Wrappers

  /** The six fields a user types in for one credential. */
  datatype Credential = Credential(
    username: string,
    password: string,
    phone: Option<string>,
    email: Option<string>,
    platform: string,
    note: Option<string>)

  /** One row of the `passwords` table. `id == 0` means "not yet assigned". */
  datatype PasswordRecord = PasswordRecord(
    id: int,
    username: string,
    password: string,
    phone: Option<string>,
    email: Option<string>,
    platform: string,
    note: Option<string>,
    createTime: int,
    updateTime: int,
    userId: int)
  {
    /** The six content fields of this row. */
    function Content(): Credential {
      Credential(username, password, phone, email, platform, note)
    }
  }

  /** A fresh, unsaved record: both timestamps are `now`, the id is left to the table. */
  function NewRecord(c: Credential, now: int, userId: int): (r: PasswordRecord)
    ensures r.id == 0 && r.Content() == c
    ensures r.createTime == r.updateTime == now && r.userId == userId
  {
    PasswordRecord(0, c.username, c.password, c.phone, c.email, c.platform, c.note, now, now, userId)
  }

  /** `copy(...)` of `r` with the six content fields replaced and `updateTime` refreshed. */
  function WithContent(r: PasswordRecord, c: Credential, now: int): (r': PasswordRecord)
    ensures r'.Content() == c && r'.updateTime == now
    ensures r'.id == r.id && r'.createTime == r.createTime && r'.userId == r.userId
  {
    r.(username := c.username, password := c.password, phone := c.phone, email := c.email,
       platform := c.platform, note := c.note, updateTime := now)
  }

  /** One row of the `users` table; the password is stored as plain text. */
  datatype UserRecord = UserRecord(id: int, username: string, password: string, createTime: int)
}

/**
 * The credential screens' state (PasswordViewModel): the operation state,
 * the current search text and search type, and the operations that drive
 * the repository. Each launched coroutine body runs to completion as one
 * method; the ghost sequence `emitted` records every value the operation
 * state takes.
 */
module PasswordViewModel {
  import opened Wrappers
  import opened Entities
  import Dao = PasswordDao
  import opened PasswordRepository
  import opened PasswordExport
  import opened UserPreferences

  /** Which search the list screen runs. */
  datatype SearchType = AllFields | PlatformField | UsernameField | PasswordField | PhoneField | EmailField | NoteField

  datatype OperationState = Initial | Loading | Success(message: string) | Error(message: string)

  const NotLoggedIn := "用户未登录"
  const Added := "密码添加成功"
  const Updated := "密码更新成功"
  const Deleted := "密码删除成功"
  const NothingToExport := "没有可导出的密码"
  const NoRecordsInFile := "导入文件不包含有效的密码数据"

  /** The `when (type)` dispatch: the repository search that each search type calls. */
  function QueryFor(t: SearchType, userId: int, text: string): (q: Dao.Query)
    ensures q.userId == userId && !q.AllOfUser? && q.text == text
    ensures q.AnyColumn? <==> t == AllFields
  {
    match t
    case AllFields => Dao.AnyColumn(userId, text)
    case PlatformField => Dao.ByColumn(userId, Dao.Platform, text)
    case UsernameField => Dao.ByColumn(userId, Dao.Username, text)
    case PasswordField => Dao.ByColumn(userId, Dao.Password, text)
    case PhoneField => Dao.ByColumn(userId, Dao.Phone, text)
    case EmailField => Dao.ByColumn(userId, Dao.Email, text)
    case NoteField => Dao.ByColumn(userId, Dao.Note, text)
  }

  /** Different search types run different searches. */
  lemma QueryForInjective(s: SearchType, t: SearchType, userId: int, text: string)
    requires s != t
    ensures QueryFor(s, userId, text) != QueryFor(t, userId, text)
  {
  }

  /** The number a string of decimal digits denotes, most significant digit first. */
  function DigitsValue(s: string): nat
    requires forall i :: 0 <= i < |s| ==> '0' <= s[i] <= '9'
  {
    if s == [] then 0 else 10 * DigitsValue(s[..|s| - 1]) + (s[|s| - 1] as int - '0' as int)
  }

  /** Decimal digits of `n`, as a Kotlin string template renders a count: no leading zero, "0" for zero. */
  function DecimalString(n: nat): (s: string)
    ensures |s| >= 1 && forall i :: 0 <= i < |s| ==> '0' <= s[i] <= '9'
    ensures DigitsValue(s) == n
    ensures s[0] == '0' ==> n == 0 && s == "0"
  {
    var digit := ('0' as int + n % 10) as char;
    if n < 10 then [digit]
    else
      var prefix := DecimalString(n / 10);
      assert (prefix + [digit])[..|prefix|] == prefix;
      prefix + [digit]
  }

  const ExportedPrefix := "成功导出 "
  const ImportedPrefix := "成功导入 "
  const CountSuffix := " 个密码"

  /** "成功导出 $count 个密码": the fixed text around the decimal count, which reads back as `count`. */
  function ExportedMessage(count: nat): (m: string)
    ensures |m| > |ExportedPrefix| + |CountSuffix|
    ensures m[..|ExportedPrefix|] == ExportedPrefix && m[|m| - |CountSuffix|..] == CountSuffix
    ensures var digits := m[|ExportedPrefix|..|m| - |CountSuffix|];
            (forall i :: 0 <= i < |digits| ==> '0' <= digits[i] <= '9') && DigitsValue(digits) == count
  {
    var m := ExportedPrefix + DecimalString(count) + CountSuffix;
    assert m[|ExportedPrefix|..|m| - |CountSuffix|] == DecimalString(count);
    m
  }

  /** "成功导入 ${insertedIds.size} 个密码": the fixed text around the decimal count, which reads back as `count`. */
  function ImportedMessage(count: nat): (m: string)
    ensures |m| > |ImportedPrefix| + |CountSuffix|
    ensures m[..|ImportedPrefix|] == ImportedPrefix && m[|m| - |CountSuffix|..] == CountSuffix
    ensures var digits := m[|ImportedPrefix|..|m| - |CountSuffix|];
            (forall i :: 0 <= i < |digits| ==> '0' <= digits[i] <= '9') && DigitsValue(digits) == count
  {
    var m := ImportedPrefix + DecimalString(count) + CountSuffix;
    assert m[|ImportedPrefix|..|m| - |CountSuffix|] == DecimalString(count);
    m
  }

  class PasswordViewModel {
    const repo: PasswordRepository
    const prefs: UserPreferences
    var operationState: OperationState
    var searchQuery: string
    var searchType: SearchType
    ghost var emitted: seq<OperationState>

    ghost predicate Valid()
      reads this, repo, repo.dao
    {
      repo.Valid()
    }

    constructor (repo: PasswordRepository, prefs: UserPreferences)
      requires repo.Valid()
      ensures Valid() && this.repo == repo && this.prefs == prefs
      ensures operationState == Initial && emitted == [Initial]
      ensures searchQuery == "" && searchType == AllFields
    {
      this.repo := repo;
      this.prefs := prefs;
      operationState := Initial;
      searchQuery := "";
      searchType := AllFields;
      emitted := [Initial];
    }

    /** `getUserId`: the session's id, or 0 when none is stored. */
    function GetUserId(): (id: int)
      reads prefs
      ensures prefs.userId.None? ==> id == 0
      ensures prefs.userId.Some? ==> id == prefs.userId.value
    {
      prefs.userId.GetOr(0)
    }

    /** `getAllPasswords`: the session user's rows, newest first. */
    method GetAllPasswords() returns (rows: seq<PasswordRecord>)
      ensures rows == repo.Search(Dao.AllOfUser(GetUserId()))
      ensures forall r :: r in rows <==> r in repo.dao.rows.Values && r.userId == GetUserId()
    {
      rows := repo.Search(Dao.AllOfUser(GetUserId()));
    }

    /** `searchPasswords`: remembers the text and the type, and runs the search the type selects. */
    method SearchPasswords(query: string, t: SearchType) returns (rows: seq<PasswordRecord>)
      modifies this
      ensures searchQuery == query && searchType == t
      ensures operationState == old(operationState) && emitted == old(emitted)
      ensures rows == repo.Search(QueryFor(t, GetUserId(), query))
    {
      var q := QueryFor(t, GetUserId(), query);
      rows := repo.Search(q);
      searchQuery := query;
      searchType := t;
    }

    /** `setSearchType`. */
    method SetSearchType(t: SearchType)
      modifies this
      ensures searchType == t && searchQuery == old(searchQuery)
      ensures operationState == old(operationState) && emitted == old(emitted)
    {
      searchType := t;
    }

    /** `setSearchQuery`. */
    method SetSearchQuery(query: string)
      modifies this
      ensures searchQuery == query && searchType == old(searchType)
      ensures operationState == old(operationState) && emitted == old(emitted)
    {
      searchQuery := query;
    }

    /**
     * `addPassword`: with no session ends in Error and stores nothing;
     * otherwise stores one row owned by the session user and ends in Success.
     */
    method AddPassword(c: Credential, now: int)
      requires Valid()
      modifies this, repo.dao
      ensures Valid()
      ensures emitted == old(emitted) + [Loading] + [operationState]
      ensures searchQuery == old(searchQuery) && searchType == old(searchType)
      ensures old(GetUserId()) == 0 ==>
                operationState == Error(NotLoggedIn) &&
                repo.dao.rows == old(repo.dao.rows) && repo.dao.nextId == old(repo.dao.nextId)
      ensures old(GetUserId()) != 0 ==>
                operationState == OperationState.Success(Added) &&
                repo.dao.nextId == old(repo.dao.nextId) + 1 &&
                repo.dao.rows == old(repo.dao.rows)[old(repo.dao.nextId) :=
                  NewRecord(c, now, old(GetUserId())).(id := old(repo.dao.nextId))]
    {
      operationState := Loading;
      emitted := emitted + [operationState];
      var userId := GetUserId();
      if userId == 0 {
        operationState := Error(NotLoggedIn);
        emitted := emitted + [operationState];
        return;
      }
      var _ := repo.AddPassword(c, userId, now);
      operationState := OperationState.Success(Added);
      emitted := emitted + [operationState];
    }

    /** `updatePassword`: ends in Success whether or not the id exists; a missing id changes nothing. */
    method UpdatePassword(id: int, c: Credential, now: int)
      requires Valid()
      modifies this, repo.dao
      ensures Valid()
      ensures operationState == OperationState.Success(Updated) && emitted == old(emitted) + [Loading] + [operationState]
      ensures searchQuery == old(searchQuery) && searchType == old(searchType)
      ensures id in old(repo.dao.rows) ==>
                repo.dao.rows == old(repo.dao.rows)[id := WithContent(old(repo.dao.rows)[id], c, now)]
      ensures id !in old(repo.dao.rows) ==> repo.dao.rows == old(repo.dao.rows)
      ensures repo.dao.nextId == old(repo.dao.nextId)
    {
      operationState := Loading;
      emitted := emitted + [operationState];
      repo.UpdatePassword(id, c, now);
      operationState := OperationState.Success(Updated);
      emitted := emitted + [operationState];
    }

    /** `deletePassword`: ends in Success whether or not the id exists. */
    method DeletePassword(id: int)
      requires Valid()
      modifies this, repo.dao
      ensures Valid()
      ensures operationState == OperationState.Success(Deleted) && emitted == old(emitted) + [Loading] + [operationState]
      ensures searchQuery == old(searchQuery) && searchType == old(searchType)
      ensures repo.dao.rows == old(repo.dao.rows) - {id}
      ensures repo.dao.nextId == old(repo.dao.nextId)
    {
      operationState := Loading;
      emitted := emitted + [operationState];
      repo.DeletePassword(id);
      operationState := OperationState.Success(Deleted);
      emitted := emitted + [operationState];
    }

    /** `resetState`: the operation state back to Initial. */
    method ResetState()
      modifies this
      ensures operationState == Initial && emitted == old(emitted) + [Initial]
      ensures searchQuery == old(searchQuery) && searchType == old(searchType)
    {
      operationState := Initial;
      emitted := emitted + [operationState];
    }

    /**
     * `exportPasswords`. The file write is the parameter `writeError`
     * (`None` when it succeeds, else the rendered exception message).
     * `document` is what is handed to the writer: nothing without a
     * session or without rows; otherwise every row of the user, newest
     * first, stamped `now`.
     */
    method ExportPasswords(writeError: Option<string>, now: int) returns (document: Option<ExportData>)
      requires Valid()
      modifies this
      ensures emitted == old(emitted) + [Loading] + [operationState]
      ensures searchQuery == old(searchQuery) && searchType == old(searchType)
      ensures var rows := repo.Search(Dao.AllOfUser(GetUserId()));
              if GetUserId() == 0 then
                operationState == Error(NotLoggedIn) && document.None?
              else if rows == [] then
                operationState == Error(NothingToExport) && document.None?
              else
                document == Some(ExportDocument(rows, now)) &&
                operationState == (if writeError.None? then OperationState.Success(ExportedMessage(|rows|))
                                   else Error("导出失败: " + writeError.value))
    {
      operationState := Loading;
      emitted := emitted + [operationState];
      document := None;
      var userId := GetUserId();
      if userId == 0 {
        operationState := Error(NotLoggedIn);
        emitted := emitted + [operationState];
        return;
      }
      var rows := repo.Search(Dao.AllOfUser(userId));
      if rows == [] {
        operationState := Error(NothingToExport);
        emitted := emitted + [operationState];
        return;
      }
      document := Some(ExportDocument(rows, now));
      if writeError.None? {
        operationState := OperationState.Success(ExportedMessage(|rows|));
      } else {
        operationState := Error("导出失败: " + writeError.value);
      }
      emitted := emitted + [operationState];
    }

    /**
     * `importPasswords`. The file read and decode is the parameter `file`
     * (the decoded document, or the rendered failure message). Without a
     * session, on a failed read or with no items, ends in Error and stores
     * nothing; otherwise stores every item as a new row of the session
     * user and reports how many ids came back.
     */
    method ImportPasswords(file: Result<ExportData, string>)
      requires Valid()
      modifies this, repo.dao
      ensures Valid()
      ensures emitted == old(emitted) + [Loading] + [operationState]
      ensures searchQuery == old(searchQuery) && searchType == old(searchType)
      ensures GetUserId() == 0 ==>
                operationState == Error(NotLoggedIn) &&
                repo.dao.rows == old(repo.dao.rows) && repo.dao.nextId == old(repo.dao.nextId)
      ensures GetUserId() != 0 && file.Failure? ==>
                operationState == Error("导入失败: " + file.error) &&
                repo.dao.rows == old(repo.dao.rows) && repo.dao.nextId == old(repo.dao.nextId)
      ensures GetUserId() != 0 && file.Success? && file.value.passwords == [] ==>
                operationState == Error(NoRecordsInFile) &&
                repo.dao.rows == old(repo.dao.rows) && repo.dao.nextId == old(repo.dao.nextId)
      ensures GetUserId() != 0 && file.Success? && file.value.passwords != [] ==>
                var entities := ToEntities(file.value.passwords, GetUserId());
                operationState == OperationState.Success(ImportedMessage(|entities|)) &&
                repo.dao.nextId == old(repo.dao.nextId) + |entities| &&
                Dao.Appended(old(repo.dao.rows), repo.dao.rows, old(repo.dao.nextId), entities)
      ensures forall k :: k in old(repo.dao.rows) ==> k in repo.dao.rows && repo.dao.rows[k] == old(repo.dao.rows)[k]
    {
      operationState := Loading;
      emitted := emitted + [operationState];
      var userId := GetUserId();
      if userId == 0 {
        operationState := Error(NotLoggedIn);
        emitted := emitted + [operationState];
        return;
      }
      if file.Failure? {
        operationState := Error("导入失败: " + file.error);
        emitted := emitted + [operationState];
        return;
      }
      var entities := ToEntities(file.value.passwords, userId);
      if entities == [] {
        operationState := Error(NoRecordsInFile);
        emitted := emitted + [operationState];
        return;
      }
      var insertedIds := repo.ImportPasswords(entities);
      operationState := OperationState.Success(ImportedMessage(|insertedIds|));
      emitted := emitted + [operationState];
    }
  }
}

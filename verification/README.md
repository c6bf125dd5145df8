# Password manager core, modelled in Dafny

This project models the rules underneath an Android password manager.
The screens, Room database plumbing, DataStore and JSON I/O are not modelled.
What remains:

- **The credential table** (`passwords`). It is a map from id to record with an auto-increment counter.
  - The DAO's `@Query` selects are one pure function, `PasswordDao.Select`. It applies user scoping, `LIKE '%q%'` on one column or on any column, and `ORDER BY updateTime DESC`.
  - `@Insert`, `@Update` and `@Delete` are methods of the class `PasswordDao.PasswordTable`.
- **The credential repository.** It stamps both timestamps on add and rewrites only the six content fields on update. Update and delete of a missing id are no-ops. A bulk import returns one id per record.
- **The export format.** It covers `toExportItem`/`toEntity` and their round-trip laws. It also covers the defaults a decoder applies to missing members.
- **The user table and its rules.** Login is an exact name-and-password match with one generic failure message. Register refuses a taken name, which is the only thing that keeps names unique.
- **The session.** It is one optional user id, shared by both view-models.
- **The two view-models** (`AuthViewModel`, `PasswordViewModel`).
  - Each launched coroutine body runs to completion as one method.
  - A ghost sequence records every value each state flow takes, so that the passage through `Loading` is part of the contract.
- **The add/edit form's decisions.** These are edit mode, the submit guard, blank-to-null normalisation and the reaction to the operation state, lifted out as pure functions.

The `demo2` copies are covered by the same members:

- `app/src/main/java/com/example/demo2/repository/UserRepository.kt` is textually the `pwd` file under another package.
- `app/src/main/java/com/example/demo2/viewmodel/PasswordViewModel.kt` lines 1-159 are the `pwd` view-model without export and import.

The credential table follows `app/src/main/java/com/example/demo2/data/PasswordDao.kt` and `app/src/main/java/com/example/demo2/data/PasswordEntity.kt`. The `pwd` DAO and entity are not part of this model; the `pwd` repository calls the same DAO methods.

Timestamps are integer epoch milliseconds. The wall clock is a `now` parameter.

Files:

| file | module |
|---|---|
| `wrappers.dfy` | `Option`, `Result` |
| `entities.dfy` | `PasswordRecord`, `UserRecord`, `Credential`, new-row and update-copy rules |
| `key_sets.dfy` | existence lemmas for the least element of a set of ids |
| `password_dao.dfy` | queries and the `PasswordTable` class |
| `password_repository.dfy` | `PasswordRepository` class |
| `password_export.dfy` | export datatypes, mappings, decoding defaults |
| `user_repository.dfy` | user table, `getUserByUsername`, `UserRepository` class |
| `user_preferences.dfy` | session class |
| `auth_view_model.dfy` | `AuthViewModel` class |
| `password_view_model.dfy` | `PasswordViewModel` class |
| `password_form.dfy` | the form's decisions |

## Model

| member | source | states |
|---|---|---|
| `Entities.NewRecord` | app/src/main/java/com/example/pwd/repository/PasswordRepository.kt:51-62 | A new row has id 0 (to be assigned), the given content and owner, and `createTime == updateTime == now`. |
| `Entities.WithContent` | app/src/main/java/com/example/pwd/repository/PasswordRepository.kt:77-85 | The updated copy carries the new six content fields and `updateTime == now`. It keeps `id`, `createTime` and `userId`. |
| `KeySets.LeastExists` | app/src/main/java/com/example/pwd/data/UserDao.kt:9-10 | Every non-empty set of ids has a least element, which is the row a single-row select over matches returns. |
| `PasswordDao.ContainsIffOccurs` | app/src/main/java/com/example/demo2/data/PasswordDao.kt:15-16 | `LIKE '%q%'` as modelled holds exactly when `q` occurs in the text at some position. |
| `PasswordDao.Like` | app/src/main/java/com/example/demo2/data/PasswordDao.kt:15-31 | The `LIKE '%' ... '%'` test of a column holds iff the column is not NULL and the query occurs in it at some position. |
| `PasswordDao.ColumnValue` | app/src/main/java/com/example/demo2/data/PasswordEntity.kt:11-16 | A searched column is NULL iff it is one of the optional columns (phone, email, note) and holds null. Platform, username and password are never NULL. |
| `PasswordDao.Selects` | app/src/main/java/com/example/demo2/data/PasswordDao.kt:12-34 | Every `WHERE` clause starts with `userId = :userId`: a selected row belongs to the query's user, and `getAllPasswordsByUserId` selects every row of that user. The all-fields clause is characterised by `AnyColumnIffSomeColumn`. |
| `PasswordDao.EmptyQueryMatches` | app/src/main/java/com/example/demo2/data/PasswordDao.kt:33-34 | Every text matches the empty pattern `'%%'`. |
| `PasswordDao.SelectedKeys` | app/src/main/java/com/example/demo2/data/PasswordDao.kt:12-34 | The `WHERE` clause picks only stored ids. |
| `PasswordDao.PrecedesTransitive` | app/src/main/java/com/example/demo2/data/PasswordDao.kt:12 | The result order (newer `updateTime` first, ties by id) is transitive. |
| `PasswordDao.FirstExists` | app/src/main/java/com/example/demo2/data/PasswordDao.kt:12 | Every non-empty selection has a row that comes first in result order. |
| `PasswordDao.First` | app/src/main/java/com/example/demo2/data/PasswordDao.kt:12 | The chosen id comes before every other selected id. |
| `PasswordDao.OrderedKeys` | app/src/main/java/com/example/demo2/data/PasswordDao.kt:12-34 | It lists every selected id and nothing else, one entry per id. |
| `PasswordDao.OrderedKeysSorted` | app/src/main/java/com/example/demo2/data/PasswordDao.kt:12-34 | The listed ids are distinct, and each comes before every later one in result order. |
| `PasswordDao.Select` | app/src/main/java/com/example/demo2/data/PasswordDao.kt:12-34 | The result has one entry per selected id. |
| `PasswordDao.SelectLists` | app/src/main/java/com/example/demo2/data/PasswordDao.kt:12-34 | A row is listed iff it is stored and the query selects it. |
| `PasswordDao.SelectNewestFirst` | app/src/main/java/com/example/demo2/data/PasswordDao.kt:12-34 | `updateTime` never increases along the result (`ORDER BY updateTime DESC`). When every row sits under its own id, no id is listed twice. |
| `PasswordDao.SearchWithinUserList` | app/src/main/java/com/example/demo2/data/PasswordDao.kt:12-34 | Every search result belongs to the searched user and appears in `getAllPasswordsByUserId` for that user. The relative order is kept, as `SearchOrderedAsUserList` states. |
| `PasswordDao.SearchKeysAmongUserKeys` | app/src/main/java/com/example/demo2/data/PasswordDao.kt:12-34 | Every id a search lists is listed by `getAllPasswordsByUserId` for the same user. |
| `PasswordDao.PositionsFollowOrder` | app/src/main/java/com/example/demo2/data/PasswordDao.kt:12 | In a list in result order, of two distinct ids the one that comes first in the order sits at the smaller position. |
| `PasswordDao.SubOrder` | app/src/main/java/com/example/demo2/data/PasswordDao.kt:12 | Two ids of a list in result order keep their relative order in any list in result order that contains them. |
| `PasswordDao.SearchOrderedAsUserList` | app/src/main/java/com/example/demo2/data/PasswordDao.kt:12-34 | A search result is a sub-list of `getAllPasswordsByUserId` for that user: any two rows it returns appear there in the same relative order. |
| `PasswordDao.NullNeverMatches` | app/src/main/java/com/example/demo2/data/PasswordDao.kt:24-31 | A null phone, email or note never matches a search on that column (`NULL LIKE …` is not true). |
| `PasswordDao.AnyColumnIffSomeColumn` | app/src/main/java/com/example/demo2/data/PasswordDao.kt:33-34 | The all-fields search selects a row iff at least one of the six single-column searches does. |
| `PasswordDao.EmptySearchListsAll` | app/src/main/java/com/example/demo2/data/PasswordDao.kt:33-34 | With an empty query, the all-fields search returns exactly `getAllPasswordsByUserId`, because platform is never null. |
| `PasswordDao.StoredRowListed` | app/src/main/java/com/example/demo2/data/PasswordDao.kt:12-13 | A row just stored is listed for its owner. |
| `PasswordDao.RemovedRowNotListed` | app/src/main/java/com/example/demo2/data/PasswordDao.kt:45-46 | After the row with an id is removed, no query lists a row with that id. |
| `PasswordDao.AppendedRows` | app/src/main/java/com/example/demo2/data/PasswordDao.kt:39-40 | After a bulk insert from counter `start`, item `i` is stored under the previously unused id `start + i`, with that id. |
| `PasswordDao.AppendedSize` | app/src/main/java/com/example/demo2/data/PasswordDao.kt:39-40 | A bulk insert grows the table by exactly the number of items. |
| `PasswordDao.PasswordTable.GetPasswordById` | app/src/main/java/com/example/demo2/data/PasswordDao.kt:48-49 | It returns the row stored under the id, or null iff there is none. |
| `PasswordDao.PasswordTable.InsertPassword` | app/src/main/java/com/example/demo2/data/PasswordDao.kt:36-37 | It stores the row under a fresh id, which it returns. That id is the counter's value, and the counter advances. No other row changes. |
| `PasswordDao.PasswordTable.InsertPasswords` | app/src/main/java/com/example/demo2/data/PasswordDao.kt:39-40 | It returns one fresh, consecutive id per input row, in order. Each row is stored under its id, the key set grows by exactly these ids, and old rows are kept. |
| `PasswordDao.PasswordTable.UpdatePassword` | app/src/main/java/com/example/demo2/data/PasswordDao.kt:42-43 | It replaces the row with the same id. A missing id changes nothing. |
| `PasswordDao.PasswordTable.DeletePassword` | app/src/main/java/com/example/demo2/data/PasswordDao.kt:45-46 | It removes the row with that id and no other. |
| `PasswordRepository.PasswordRepository.GetPasswordById` | app/src/main/java/com/example/pwd/repository/PasswordRepository.kt:97-99 | It returns the stored row with that id, or null iff there is none. |
| `PasswordRepository.PasswordRepository.Search` | app/src/main/java/com/example/pwd/repository/PasswordRepository.kt:10-40 | The pass-through searches list exactly the stored rows the query selects, newest first. |
| `PasswordRepository.PasswordRepository.AddPassword` | app/src/main/java/com/example/pwd/repository/PasswordRepository.kt:42-64 | It stores one new row with the given content and owner and both timestamps `now`. It returns the new id, the id counter advances by one, and `getPasswordById` on that id yields the stored row. |
| `PasswordRepository.PasswordRepository.UpdatePassword` | app/src/main/java/com/example/pwd/repository/PasswordRepository.kt:66-88 | An existing id gets new content and `updateTime`, keeping id, `createTime` and owner. A missing id leaves the table unchanged. The id counter never moves, and the owner is never consulted. |
| `PasswordRepository.PasswordRepository.DeletePassword` | app/src/main/java/com/example/pwd/repository/PasswordRepository.kt:90-95 | It removes exactly that id, whoever owns it, and leaves the id counter alone. A missing id is a no-op. |
| `PasswordRepository.PasswordRepository.ImportPasswords` | app/src/main/java/com/example/pwd/repository/PasswordRepository.kt:101-103 | It returns one id per record, `ids[i] == old counter + i`. The new key set is the old one plus exactly those ids, each holding its record, and old rows are unchanged. |
| `PasswordExport.ToExportItem` | app/src/main/java/com/example/pwd/data/PasswordExport.kt:26-37 | It copies the six content fields and both timestamps as millis. |
| `PasswordExport.ToEntity` | app/src/main/java/com/example/pwd/data/PasswordExport.kt:39-52 | The result has id 0 and the importing user as owner. It keeps the content and the item's own timestamps. |
| `PasswordExport.EntityRoundTrip` | app/src/main/java/com/example/pwd/data/PasswordExport.kt:26-52 | `toEntity(toExportItem(e), u)` is `e` with id 0 and owner `u`. |
| `PasswordExport.ItemRoundTrip` | app/src/main/java/com/example/pwd/data/PasswordExport.kt:26-51 | `toExportItem(toEntity(i, u))` is `i`. |
| `PasswordExport.ExportItems` | app/src/main/java/com/example/pwd/data/PasswordExport.kt:25-37 | Mapping a list gives one item per row, in order. |
| `PasswordExport.ToEntities` | app/src/main/java/com/example/pwd/data/PasswordExport.kt:39-51 | Mapping a list gives one row per item, in order. |
| `PasswordExport.ExportDocument` | app/src/main/java/com/example/pwd/data/PasswordExport.kt:18-23 | The exported document holds the mapped rows, the export time and version 1. |
| `PasswordExport.ExportImportRoundTrip` | app/src/main/java/com/example/pwd/data/PasswordExport.kt:18-52 | Export then import gives back every row in order, with id 0 and the importing owner. |
| `PasswordExport.ImportExportRoundTrip` | app/src/main/java/com/example/pwd/data/PasswordExport.kt:26-50 | Import then export gives back the file's items exactly. |
| `PasswordExport.DecodeItem` | app/src/main/java/com/example/pwd/data/PasswordExport.kt:6-16 | A missing phone, email or note decodes as null. A present one decodes as written. |
| `PasswordExport.DecodeItems` | app/src/main/java/com/example/pwd/data/PasswordExport.kt:7-16 | It decodes one item per raw item, in order. |
| `PasswordExport.DecodeDocument` | app/src/main/java/com/example/pwd/data/PasswordExport.kt:18-23 | A missing version decodes as 1 and a missing export time as the decoding clock. Present members decode as written, and the items are the raw items decoded one by one. |
| `PasswordExport.EncodeItems` | app/src/main/java/com/example/pwd/data/PasswordExport.kt:10-13 | Encoding writes every item, each with all members present. |
| `PasswordExport.DecodeEncodeRoundTrip` | app/src/main/java/com/example/pwd/data/PasswordExport.kt:6-23 | A written document decodes back to itself, whatever the clock reads. |
| `UserRepository.KeysNamed` | app/src/main/java/com/example/pwd/data/UserDao.kt:9 | It selects exactly the ids whose user has that name. |
| `UserRepository.UserByUsername` | app/src/main/java/com/example/pwd/data/UserDao.kt:9-10 | It returns null iff no user has that name; otherwise a stored user with that name. |
| `UserRepository.LookupAfterInsert` | app/src/main/java/com/example/pwd/repository/UserRepository.kt:19-34 | Storing a user under a free id and an unused name keeps names unique, and the lookup then finds that user. |
| `UserRepository.UserRepository.Login` | app/src/main/java/com/example/pwd/repository/UserRepository.kt:9-17 | It succeeds iff a user with that name has exactly that password, and then yields that user. Otherwise it fails with one message for unknown name and wrong password alike. It reads the table only. |
| `UserRepository.UserRepository.GetUserById` | app/src/main/java/com/example/pwd/repository/UserRepository.kt:36-38 | It returns the user stored under the id, or null iff there is none. |
| `UserRepository.UserRepository.Register` | app/src/main/java/com/example/pwd/repository/UserRepository.kt:19-34 | A taken name fails with "用户名已存在" and changes nothing. A fresh name stores exactly one user under the counter's id, returns that id and advances the counter by one. Names stay unique, and login with the same pair then yields that user. |
| `UserPreferences.UserPreferences.constructor` | app/src/main/java/com/example/demo2/utils/UserPreferences.kt:18-20 | No session id is stored at first. |
| `UserPreferences.UserPreferences.SaveUserId` | app/src/main/java/com/example/demo2/utils/UserPreferences.kt:22-26 | It stores the id. |
| `UserPreferences.UserPreferences.ClearUserId` | app/src/main/java/com/example/demo2/utils/UserPreferences.kt:28-32 | It removes the stored id. |
| `AuthViewModel.AuthViewModel.constructor` | app/src/main/java/com/example/pwd/viewmodel/AuthViewModel.kt:20-24 | Both states start as Initial. |
| `AuthViewModel.AuthViewModel.IsUserLoggedIn` | app/src/main/java/com/example/pwd/viewmodel/AuthViewModel.kt:26-29 | It is true iff a session id is stored and positive. |
| `AuthViewModel.AuthViewModel.Login` | app/src/main/java/com/example/pwd/viewmodel/AuthViewModel.kt:31-50 | It passes through Loading. On success it stores the user's id and ends in Success. On failure it leaves the session alone and ends in Error with the repository's message. The register state is untouched. |
| `AuthViewModel.AuthViewModel.Register` | app/src/main/java/com/example/pwd/viewmodel/AuthViewModel.kt:52-76 | Different passwords give the mismatch Error without Loading, table or session change. A taken name gives Error with nothing changed. Neither failure moves the user id counter. A fresh name stores the user under the next id, advances the counter by one, saves its id as the session and ends in Success, after which login succeeds. |
| `AuthViewModel.AuthViewModel.ResetStates` | app/src/main/java/com/example/pwd/viewmodel/AuthViewModel.kt:78-81 | Both states return to Initial. |
| `AuthViewModel.AuthViewModel.Logout` | app/src/main/java/com/example/pwd/viewmodel/AuthViewModel.kt:83-88 | It clears the session and sets the login state to Initial. The register state is untouched. |
| `PasswordViewModel.QueryFor` | app/src/main/java/com/example/pwd/viewmodel/PasswordViewModel.kt:61-69 | Each search type runs a search scoped to the user with the given text. Only `ALL_FIELDS` runs the all-fields search. |
| `PasswordViewModel.QueryForInjective` | app/src/main/java/com/example/pwd/viewmodel/PasswordViewModel.kt:61-69 | Different search types dispatch to different repository searches. |
| `PasswordViewModel.DecimalString` | app/src/main/java/com/example/pwd/viewmodel/PasswordViewModel.kt:191 | A count renders as a non-empty string of decimal digits that denotes the count, with no leading zero ("0" for zero). |
| `PasswordViewModel.ExportedMessage` | app/src/main/java/com/example/pwd/viewmodel/PasswordViewModel.kt:191 | The export message is "成功导出 ", then decimal digits that read back as the count, then " 个密码". |
| `PasswordViewModel.ImportedMessage` | app/src/main/java/com/example/pwd/viewmodel/PasswordViewModel.kt:227 | The import message is "成功导入 ", then decimal digits that read back as the number of inserted ids, then " 个密码". |
| `PasswordViewModel.PasswordViewModel.constructor` | app/src/main/java/com/example/pwd/viewmodel/PasswordViewModel.kt:27-39 | The operation state starts Initial, the query empty and the type `ALL_FIELDS`. |
| `PasswordViewModel.PasswordViewModel.GetUserId` | app/src/main/java/com/example/pwd/viewmodel/PasswordViewModel.kt:41-43 | It returns the session id, or 0 when none is stored. |
| `PasswordViewModel.PasswordViewModel.GetAllPasswords` | app/src/main/java/com/example/pwd/viewmodel/PasswordViewModel.kt:45-51 | It lists exactly the session user's stored rows, newest first. |
| `PasswordViewModel.PasswordViewModel.SearchPasswords` | app/src/main/java/com/example/pwd/viewmodel/PasswordViewModel.kt:53-70 | It sets the query and the type, and returns exactly the repository search the type selects, scoped to the session user. The operation state is untouched. |
| `PasswordViewModel.PasswordViewModel.SetSearchType` | app/src/main/java/com/example/pwd/viewmodel/PasswordViewModel.kt:72-74 | It sets the type only. |
| `PasswordViewModel.PasswordViewModel.SetSearchQuery` | app/src/main/java/com/example/pwd/viewmodel/PasswordViewModel.kt:76-78 | It sets the query only. |
| `PasswordViewModel.PasswordViewModel.AddPassword` | app/src/main/java/com/example/pwd/viewmodel/PasswordViewModel.kt:84-117 | It passes through Loading. With no session it ends in Error("用户未登录") and stores nothing, leaving the id counter alone. Otherwise it stores one row owned by the session user, advances the counter by one and ends in Success. |
| `PasswordViewModel.PasswordViewModel.UpdatePassword` | app/src/main/java/com/example/pwd/viewmodel/PasswordViewModel.kt:119-147 | It passes through Loading and ends in Success even for a missing id, which changes nothing. The id counter never moves. |
| `PasswordViewModel.PasswordViewModel.DeletePassword` | app/src/main/java/com/example/pwd/viewmodel/PasswordViewModel.kt:149-160 | It passes through Loading, ends in Success, and removes at most the row with that id. The id counter never moves. |
| `PasswordViewModel.PasswordViewModel.ResetState` | app/src/main/java/com/example/pwd/viewmodel/PasswordViewModel.kt:162-164 | The operation state returns to Initial. |
| `PasswordViewModel.PasswordViewModel.ExportPasswords` | app/src/main/java/com/example/pwd/viewmodel/PasswordViewModel.kt:167-201 | Without a session, or with no rows, it ends in Error and hands nothing to the writer. Otherwise it hands over every row of the user, newest first, and ends in Success with the count or in Error with the writer's message. The table is untouched. |
| `PasswordViewModel.PasswordViewModel.ImportPasswords` | app/src/main/java/com/example/pwd/viewmodel/PasswordViewModel.kt:204-237 | Without a session, on a failed read, or with no items, it ends in Error, stores nothing and leaves the id counter alone. Otherwise each item becomes a new row of the session user under consecutive fresh ids, and it reports the count. Old rows are untouched. |
| `PasswordForm.IsBlank` | app/src/main/java/com/example/pwd/ui/screen/PasswordFormScreen.kt:233 | A text is blank iff every character is whitespace in Kotlin's sense. |
| `PasswordForm.OptionalField` | app/src/main/java/com/example/pwd/ui/screen/PasswordFormScreen.kt:233-245 | A blank optional field is sent as null. Any other is sent verbatim, untrimmed. |
| `PasswordForm.IsEditMode` | app/src/main/java/com/example/pwd/ui/screen/PasswordFormScreen.kt:53 | The form is in edit mode iff it was opened with a row id. |
| `PasswordForm.SubmitEnabled` | app/src/main/java/com/example/pwd/ui/screen/PasswordFormScreen.kt:249-250 | Submit is enabled iff username, password and platform each contain a non-whitespace character and the state is not Loading. |
| `PasswordForm.Submit` | app/src/main/java/com/example/pwd/ui/screen/PasswordFormScreen.kt:227-247 | Edit mode (`passwordId` non-null) calls update with that id; otherwise the form adds. Required fields are sent as typed, optional ones blank-to-null. |
| `PasswordForm.LoadedFields` | app/src/main/java/com/example/pwd/ui/screen/PasswordFormScreen.kt:67-80 | A loaded row fills every field, with null optionals shown as "". A missing row leaves the empty form. |
| `PasswordForm.ResubmitLoaded` | app/src/main/java/com/example/pwd/ui/screen/PasswordFormScreen.kt:72-77 | Submitting a loaded row unchanged updates that id. Null optionals stay null, whitespace-only ones become null, and the rest are kept. |
| `PasswordForm.ResubmitKeepsContent` | app/src/main/java/com/example/pwd/ui/screen/PasswordFormScreen.kt:228-237 | When no optional is whitespace-only, resubmitting sends exactly the row's content. |
| `PasswordForm.EnabledSubmitHasRequired` | app/src/main/java/com/example/pwd/ui/screen/PasswordFormScreen.kt:249-250 | An enabled button never sends a blank required field. |
| `PasswordForm.OnOperationState` | app/src/main/java/com/example/pwd/ui/screen/PasswordFormScreen.kt:83-98 | Success navigates back and resets. Error shows its message and resets. Initial and Loading do nothing. |

## Left out

- `PasswordDao.PasswordTable.InsertPassword` and `InsertPasswords` require id 0 on every row. Room's `@Insert` of a row with an explicit id is not modelled, and every caller passes 0.
- `PasswordDao.Select` models `LIKE` as plain, case-sensitive substring match. SQLite's ASCII case-insensitivity and `%`/`_` in user input acting as wildcards are not modelled.
- `PasswordDao.Select` breaks `updateTime` ties by ascending id. SQL leaves the order of ties unspecified.
- `PasswordViewModel.PasswordViewModel.GetAllPasswords` and `SearchPasswords` use the stored session id. In the source (`app/src/main/java/com/example/pwd/viewmodel/PasswordViewModel.kt:45-57`), the id is read right after launching the coroutine that sets it, so the id actually passed depends on scheduling and may still be 0. That timing is not modelled.
- Query results are snapshots. Room's `Flow` re-emission on table change is not modelled.
- Exceptions thrown by the database or DataStore are not modelled. These are the `catch` branches of every view-model operation, and the `"登录失败"`-style fallback messages used when an exception has no message.
- `ImportExportUtil` is not part of this model. The export's file write is the parameter `writeError` of `ExportPasswords`, and the import's read and decode is the parameter `file` (a `Result`). Its blank-file check, JSON text format and ContentResolver streams are left out, as is `isValidPasswordFile`.
- `Long` and `Int` widths are not modelled: ids, user ids, timestamps and counts are unbounded integers. `Date` is epoch milliseconds.
- `UserRepository.UserByUsername` returns the matching user with the least id, standing in for the first row SQLite returns. With unique names, which `Register` maintains, there is at most one match.
- `UserRepository.UserRepository.Register` takes the clock as `now`, for `createTime`.
- The Room and DataStore plumbing is not modelled. This covers `AppDatabase`, the `UserDao` interface (a map here), `UserPreferences` (an `Option<int>` field here) and the view-model factories.
- The Compose screens, navigation, snackbar rendering and `SecurityUtils` (Android Keystore AES-GCM) are not modelled. Only the form's decisions are lifted out.
- `PasswordViewModel.PasswordViewModel.ExportPasswords` leaves out the "导出时发生错误" and "导入时发生错误" messages of the outer `catch`, for the same reason as the other exceptions. `ImportPasswords` leaves them out as well.
- `PasswordViewModel.PasswordViewModel.SearchPasswords` takes the search type as a required parameter. Kotlin's default argument (`type = searchType.value`) is not modelled; every call site in the source passes the type explicitly.

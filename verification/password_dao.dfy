/**
 * The `passwords` table and the queries declared on it (PasswordDao).
 *
 * The table is a map from id to row. Each `@Query` select is the pure
 * function `Select`: keep the rows a `Query` selects, then order them by
 * `updateTime` descending. SQL leaves the order of rows with equal
 * `updateTime` open; the model puts the smaller id first.
 * `@Insert`, `@Update` and `@Delete` are methods of `PasswordTable`.
 */
module PasswordDao {
  import opened Wrappers
  import opened Entities
  import opened KeySets

  type Table = map<int, PasswordRecord>

  // ---------------------------------------------------------------------
  // Matching: `column LIKE '%' || :query || '%'`
  // ---------------------------------------------------------------------

  /** `query` occurs somewhere in `text` as a contiguous substring. */
  predicate Contains(text: string, query: string)
    decreases |text|
  {
    query <= text || (text != [] && Contains(text[1..], query))
  }

  /** `query` starts at position `i` of `text`. */
  predicate OccursAt(text: string, query: string, i: int) {
    0 <= i <= |text| - |query| && text[i..i + |query|] == query
  }

  /** `Contains` agrees with "there is a position where `query` starts". */
  lemma {:induction false} ContainsIffOccurs(text: string, query: string)
    ensures Contains(text, query) <==> exists i :: OccursAt(text, query, i)
    decreases |text|
  {
    if query <= text {
      assert OccursAt(text, query, 0);
    } else if text == [] {
      assert forall i :: OccursAt(text, query, i) ==> query == [];
    } else {
      ContainsIffOccurs(text[1..], query);
      if Contains(text[1..], query) {
        var i :| OccursAt(text[1..], query, i);
        assert text[1..][i..i + |query|] == text[i + 1..i + 1 + |query|];
        assert OccursAt(text, query, i + 1);
      } else {
        forall i | 0 <= i <= |text| - |query|
          ensures !OccursAt(text, query, i)
        {
          if i == 0 {
            assert text[..|query|] == text[0..|query|];
          } else {
            assert text[1..][i - 1..i - 1 + |query|] == text[i..i + |query|];
            assert !OccursAt(text[1..], query, i - 1);
          }
        }
      }
    }
  }

  /** The empty pattern `'%%'` matches every non-null text. */
  lemma {:induction false} EmptyQueryMatches(text: string)
    ensures Contains(text, "")
  {
    assert "" <= text;
  }

  /** SQL `field LIKE '%' || query || '%'`: a NULL field never matches, a text matches iff `query` occurs in it. */
  function Like(field: Option<string>, query: string): (b: bool)
    ensures b <==> field.Some? && exists i :: OccursAt(field.value, query, i)
  {
    if field.None? then false
    else
      ContainsIffOccurs(field.value, query);
      Contains(field.value, query)
  }

  // ---------------------------------------------------------------------
  // Queries
  // ---------------------------------------------------------------------

  /** The six searchable columns. */
  datatype Column = Platform | Username | Password | Phone | Email | Note

  /** The value of one column of a row; `platform`, `username` and `password` are never null. */
  function ColumnValue(r: PasswordRecord, c: Column): (v: Option<string>)
    ensures v.None? <==> (c == Phone && r.phone.None?) || (c == Email && r.email.None?) ||
                         (c == Note && r.note.None?)
  {
    match c
    case Platform => Some(r.platform)
    case Username => Some(r.username)
    case Password => Some(r.password)
    case Phone => r.phone
    case Email => r.email
    case Note => r.note
  }

  /**
   * The `WHERE` clause of one select:
   * `getAllPasswordsByUserId` is `AllOfUser`, the six single-column
   * `searchPasswordsBy*` queries are `ByColumn`, and
   * `searchPasswordsByAllFields` is `AnyColumn`.
   */
  datatype Query =
    | AllOfUser(userId: int)
    | ByColumn(userId: int, column: Column, text: string)
    | AnyColumn(userId: int, text: string)

  function Selects(q: Query, r: PasswordRecord): (b: bool)
    ensures b ==> r.userId == q.userId
    ensures q.AllOfUser? ==> (b <==> r.userId == q.userId)
  {
    r.userId == q.userId &&
    match q
    case AllOfUser(_) => true
    case ByColumn(_, c, s) => Like(ColumnValue(r, c), s)
    case AnyColumn(_, s) =>
      Like(Some(r.platform), s) || Like(Some(r.username), s) || Like(Some(r.password), s) ||
      Like(r.phone, s) || Like(r.email, s) || Like(r.note, s)
  }

  /** The ids of the rows `q` selects, as a set. */
  function SelectedKeys(table: Table, q: Query): (ks: set<int>)
    ensures ks <= table.Keys
  {
    set k | k in table && Selects(q, table[k])
  }

  /** `ORDER BY updateTime DESC`, ties broken by ascending id. */
  predicate Precedes(table: Table, a: int, b: int) {
    a in table && b in table &&
    (table[a].updateTime > table[b].updateTime ||
     (table[a].updateTime == table[b].updateTime && a <= b))
  }

  /** A stored row is stored under some key. */
  lemma StoredUnderSomeKey(table: Table, r: PasswordRecord)
    requires r in table.Values
    ensures exists k :: k in table && table[k] == r
  {
    if forall k :: k in table ==> table[k] != r {
    }
  }

  /** `k` is the member of `ks` that the order puts first. */
  predicate IsFirst(table: Table, ks: set<int>, k: int) {
    k in ks && forall j :: j in ks ==> Precedes(table, k, j)
  }

  lemma PrecedesTransitive(table: Table, a: int, b: int, c: int)
    requires Precedes(table, a, b) && Precedes(table, b, c)
    ensures Precedes(table, a, c)
  {
  }

  lemma {:induction false} FirstExists(table: Table, ks: set<int>)
    requires ks != {} && ks <= table.Keys
    ensures exists k :: IsFirst(table, ks, k)
    decreases ks
  {
    NonEmptyHasMember(ks);
    var x :| x in ks;
    if ks == {x} {
      assert IsFirst(table, ks, x);
    } else {
      var rest := ks - {x};
      FirstExists(table, rest);
      var k :| IsFirst(table, rest, k);
      if Precedes(table, k, x) {
        assert IsFirst(table, ks, k);
      } else {
        forall j | j in ks
          ensures Precedes(table, x, j)
        {
          if j != x {
            PrecedesTransitive(table, x, k, j);
          }
        }
        assert IsFirst(table, ks, x);
      }
    }
  }

  /** The key among `ks` that the order puts first (unique, as the order is total on keys). */
  function First(table: Table, ks: set<int>): (k: int)
    requires ks != {} && ks <= table.Keys
    ensures IsFirst(table, ks, k)
  {
    FirstExists(table, ks);
    var k :| IsFirst(table, ks, k);
    k
  }

  /** All of `ks`, each once, in query order. */
  function OrderedKeys(table: Table, ks: set<int>): (r: seq<int>)
    requires ks <= table.Keys
    ensures |r| == |ks|
    ensures forall i :: 0 <= i < |r| ==> r[i] in ks
    ensures forall k :: k in ks ==> k in r
    decreases ks
  {
    if ks == {} then []
    else
      var k := First(table, ks);
      [k] + OrderedKeys(table, ks - {k})
  }

  /** Distinct keys, each preceding every later one. */
  predicate InQueryOrder(table: Table, keys: seq<int>) {
    forall i, j :: 0 <= i < j < |keys| ==> keys[i] != keys[j] && Precedes(table, keys[i], keys[j])
  }

  /** A key that precedes, and differs from, every key of an ordered list may head it. */
  lemma ConsInQueryOrder(table: Table, k: int, rest: seq<int>)
    requires InQueryOrder(table, rest)
    requires forall j :: 0 <= j < |rest| ==> rest[j] != k && Precedes(table, k, rest[j])
    ensures InQueryOrder(table, [k] + rest)
  {
    var r := [k] + rest;
    forall i, j | 0 <= i < j < |r|
      ensures r[i] != r[j] && Precedes(table, r[i], r[j])
    {
      if i > 0 {
        assert r[i] == rest[i - 1];
      }
    }
  }

  /** The ordered keys are distinct and each precedes every later one. */
  lemma {:induction false} OrderedKeysSorted(table: Table, ks: set<int>)
    requires ks <= table.Keys
    ensures InQueryOrder(table, OrderedKeys(table, ks))
    decreases ks
  {
    if ks != {} {
      var k := First(table, ks);
      var rest := OrderedKeys(table, ks - {k});
      OrderedKeysSorted(table, ks - {k});
      forall j | 0 <= j < |rest|
        ensures rest[j] != k && Precedes(table, k, rest[j])
      {
        assert rest[j] in ks - {k};
      }
      ConsInQueryOrder(table, k, rest);
    }
  }

  /** Every row is stored under its own id. */
  ghost predicate IdsMatch(table: Table) {
    forall k :: k in table ==> table[k].id == k
  }

  /** The rows stored under `keys`, in that order. */
  function RowsOf(table: Table, keys: seq<int>): (rows: seq<PasswordRecord>)
    requires forall i :: 0 <= i < |keys| ==> keys[i] in table
    ensures |rows| == |keys|
    ensures forall i :: 0 <= i < |keys| ==> rows[i] == table[keys[i]]
  {
    if keys == [] then [] else [table[keys[0]]] + RowsOf(table, keys[1..])
  }

  /** Every row the query selects is among the rows of its ordered keys. */
  lemma {:induction false} SelectedRowsListed(table: Table, q: Query, keys: seq<int>)
    requires keys == OrderedKeys(table, SelectedKeys(table, q))
    ensures forall r :: r in table.Values && Selects(q, r) ==> r in RowsOf(table, keys)
  {
    var rows := RowsOf(table, keys);
    forall r | r in table.Values && Selects(q, r)
      ensures r in rows
    {
      StoredUnderSomeKey(table, r);
      var k :| k in table && table[k] == r;
      AtSomeIndex(keys, k);
      var i :| 0 <= i < |keys| && keys[i] == k;
      assert rows[i] == r;
    }
  }

  /** Every row among the rows of the ordered keys is stored and selected. */
  lemma {:induction false} ListedRowsSelected(table: Table, q: Query, keys: seq<int>)
    requires keys == OrderedKeys(table, SelectedKeys(table, q))
    ensures forall r :: r in RowsOf(table, keys) ==> r in table.Values && Selects(q, r)
  {
    var rows := RowsOf(table, keys);
    forall r | r in rows
      ensures r in table.Values && Selects(q, r)
    {
      AtSomeIndex(rows, r);
      var i :| 0 <= i < |rows| && rows[i] == r;
      assert keys[i] in SelectedKeys(table, q);
    }
  }

  /** The rows of the ordered keys come newest first, and with ids matching keys no id repeats. */
  lemma {:induction false} ListedRowsOrdered(table: Table, q: Query, keys: seq<int>)
    requires keys == OrderedKeys(table, SelectedKeys(table, q))
    ensures forall i, j :: 0 <= i < j < |keys| ==> RowsOf(table, keys)[i].updateTime >= RowsOf(table, keys)[j].updateTime
    ensures IdsMatch(table) ==> forall i, j :: 0 <= i < j < |keys| ==> RowsOf(table, keys)[i].id != RowsOf(table, keys)[j].id
  {
    OrderedKeysSorted(table, SelectedKeys(table, q));
    var rows := RowsOf(table, keys);
    forall i, j | 0 <= i < j < |keys|
      ensures rows[i].updateTime >= rows[j].updateTime
      ensures IdsMatch(table) ==> rows[i].id != rows[j].id
    {
      assert keys[i] != keys[j] && Precedes(table, keys[i], keys[j]);
    }
  }

  /**
   * The result list of a select: the rows stored under the selected keys,
   * in query order, one per selected key. What it holds is stated by
   * `SelectLists` and `SelectNewestFirst`.
   */
  function Select(table: Table, q: Query): (rows: seq<PasswordRecord>)
    ensures |rows| == |SelectedKeys(table, q)|
  {
    RowsOf(table, OrderedKeys(table, SelectedKeys(table, q)))
  }

  /** A select lists exactly the stored rows the query selects. */
  lemma {:induction false} SelectLists(table: Table, q: Query)
    ensures forall r :: r in Select(table, q) <==> r in table.Values && Selects(q, r)
  {
    var keys := OrderedKeys(table, SelectedKeys(table, q));
    SelectedRowsListed(table, q, keys);
    ListedRowsSelected(table, q, keys);
  }

  /** A select lists newest `updateTime` first and, when rows sit under their own ids, no id twice. */
  lemma {:induction false} SelectNewestFirst(table: Table, q: Query)
    ensures var rows := Select(table, q);
            forall i, j :: 0 <= i < j < |rows| ==> rows[i].updateTime >= rows[j].updateTime
    ensures var rows := Select(table, q);
            IdsMatch(table) ==> forall i, j :: 0 <= i < j < |rows| ==> rows[i].id != rows[j].id
  {
    ListedRowsOrdered(table, q, OrderedKeys(table, SelectedKeys(table, q)));
  }

  // ---------------------------------------------------------------------
  // Properties of the queries
  // ---------------------------------------------------------------------

  /** A search never returns a row of another user, and every row it returns is in the user's full list. */
  lemma SearchWithinUserList(table: Table, q: Query, r: PasswordRecord)
    requires r in Select(table, q)
    ensures r.userId == q.userId
    ensures r in Select(table, AllOfUser(q.userId))
  {
    SelectLists(table, q);
    SelectLists(table, AllOfUser(q.userId));
  }

  /** Positions in a list in query order follow the order of the keys they hold. */
  lemma PositionsFollowOrder(table: Table, keys: seq<int>, a: int, b: int)
    requires InQueryOrder(table, keys)
    requires 0 <= a < |keys| && 0 <= b < |keys|
    requires keys[a] != keys[b] && Precedes(table, keys[a], keys[b])
    ensures a < b
  {
  }

  /** Two keys of a list in query order keep their relative order in any longer list in query order. */
  lemma {:induction false} SubOrder(table: Table, keys: seq<int>, longer: seq<int>, i: int, j: int)
    requires InQueryOrder(table, keys) && InQueryOrder(table, longer)
    requires forall k :: k in keys ==> k in longer
    requires 0 <= i < j < |keys|
    ensures exists a, b :: 0 <= a < b < |longer| && longer[a] == keys[i] && longer[b] == keys[j]
  {
    AtSomeIndex(longer, keys[i]);
    var a :| 0 <= a < |longer| && longer[a] == keys[i];
    AtSomeIndex(longer, keys[j]);
    var b :| 0 <= b < |longer| && longer[b] == keys[j];
    PositionsFollowOrder(table, longer, a, b);
  }

  /** Every key a search lists is listed for the user. */
  lemma SearchKeysAmongUserKeys(table: Table, q: Query)
    ensures var userKeys := OrderedKeys(table, SelectedKeys(table, AllOfUser(q.userId)));
            forall k :: k in OrderedKeys(table, SelectedKeys(table, q)) ==> k in userKeys
  {
    var ks := SelectedKeys(table, q);
    var us := SelectedKeys(table, AllOfUser(q.userId));
    forall k | k in ks
      ensures k in us
    {
      assert Selects(q, table[k]);
    }
  }

  /**
   * A search result is a sub-list of the user's full list: any two rows
   * the search returns appear in `getAllPasswordsByUserId` of that user,
   * in the same relative order.
   */
  lemma {:induction false} SearchOrderedAsUserList(table: Table, q: Query, i: int, j: int)
    requires 0 <= i < j < |Select(table, q)|
    ensures var rows := Select(table, q);
            var all := Select(table, AllOfUser(q.userId));
            exists a, b :: 0 <= a < b < |all| && all[a] == rows[i] && all[b] == rows[j]
  {
    var ks := SelectedKeys(table, q);
    var us := SelectedKeys(table, AllOfUser(q.userId));
    var keys := OrderedKeys(table, ks);
    var userKeys := OrderedKeys(table, us);
    OrderedKeysSorted(table, ks);
    OrderedKeysSorted(table, us);
    SearchKeysAmongUserKeys(table, q);
    SubOrder(table, keys, userKeys, i, j);
    var a, b :| 0 <= a < b < |userKeys| && userKeys[a] == keys[i] && userKeys[b] == keys[j];
    var all := Select(table, AllOfUser(q.userId));
    assert all[a] == table[keys[i]] && all[b] == table[keys[j]];
  }

  /** A row whose chosen column is NULL never matches a search on that column. */
  lemma NullNeverMatches(r: PasswordRecord, userId: int, c: Column, s: string)
    requires ColumnValue(r, c).None?
    ensures !Selects(ByColumn(userId, c, s), r)
  {
  }

  /** The all-fields search matches exactly when one of the six single-column searches does. */
  lemma {:induction false} AnyColumnIffSomeColumn(r: PasswordRecord, userId: int, s: string)
    ensures Selects(AnyColumn(userId, s), r) <==> exists c :: Selects(ByColumn(userId, c, s), r)
  {
    if Selects(AnyColumn(userId, s), r) {
      var c :=
        if Like(Some(r.platform), s) then Platform
        else if Like(Some(r.username), s) then Username
        else if Like(Some(r.password), s) then Password
        else if Like(r.phone, s) then Phone
        else if Like(r.email, s) then Email
        else Note;
      assert Selects(ByColumn(userId, c, s), r);
    }
  }

  /** With an empty query the all-fields search lists every row of the user, in the same order. */
  lemma {:induction false} EmptySearchListsAll(table: Table, userId: int)
    ensures Select(table, AnyColumn(userId, "")) == Select(table, AllOfUser(userId))
  {
    forall k | k in table
      ensures Selects(AnyColumn(userId, ""), table[k]) == Selects(AllOfUser(userId), table[k])
    {
      EmptyQueryMatches(table[k].platform);
    }
    assert SelectedKeys(table, AnyColumn(userId, "")) == SelectedKeys(table, AllOfUser(userId));
  }

  /** A row stored under a new key shows up in its owner's list. */
  lemma StoredRowListed(table: Table, id: int, r: PasswordRecord)
    ensures r in Select(table[id := r], AllOfUser(r.userId))
  {
    assert table[id := r][id] == r;
    SelectLists(table[id := r], AllOfUser(r.userId));
  }

  /** After the row with key `id` is removed, no select returns a row with that id. */
  lemma {:induction false} RemovedRowNotListed(table: Table, id: int, q: Query)
    requires IdsMatch(table)
    ensures forall r :: r in Select(table - {id}, q) ==> r.id != id
  {
    SelectLists(table - {id}, q);
    forall r | r in Select(table - {id}, q)
      ensures r.id != id
    {
      StoredUnderSomeKey(table - {id}, r);
      var k :| k in table - {id} && (table - {id})[k] == r;
      assert table[k] == r;
    }
  }

  // ---------------------------------------------------------------------
  // The table and its writes
  // ---------------------------------------------------------------------

  /**
   * `after` is `before` with `ps[i]` stored under the fresh id `start + i`
   * for every `i`, and nothing else added or changed.
   */
  ghost predicate Appended(before: Table, after: Table, start: int, ps: seq<PasswordRecord>) {
    (forall k :: k in before ==> k < start) &&
    (forall k :: k in after <==> k in before || start <= k < start + |ps|) &&
    (forall k :: start <= k < start + |ps| ==> k in after && after[k] == ps[k - start].(id := k)) &&
    (forall k :: k in before ==> after[k] == before[k])
  }

  /** After an append, `ps[i]` is found under `start + i`, an id no old row had. */
  lemma {:induction false} AppendedRows(before: Table, after: Table, start: int, ps: seq<PasswordRecord>)
    requires Appended(before, after, start, ps)
    ensures forall i :: 0 <= i < |ps| ==>
              start + i !in before && start + i in after && after[start + i] == ps[i].(id := start + i)
  {
    forall i | 0 <= i < |ps|
      ensures start + i !in before && start + i in after && after[start + i] == ps[i].(id := start + i)
    {
      assert start <= start + i < start + |ps|;
    }
  }

  /** An append grows the table by exactly `|ps|` rows. */
  lemma {:induction false} AppendedSize(before: Table, after: Table, start: int, ps: seq<PasswordRecord>)
    requires Appended(before, after, start, ps)
    ensures |after| == |before| + |ps|
  {
    var added := Range(start, |ps|);
    assert before.Keys !! added;
    assert after.Keys == before.Keys + added;
  }

  /**
   * The stored `passwords` table. Ids are auto-generated, start at 1 and
   * are never reused (`nextId` is the next one to hand out).
   */
  class PasswordTable {
    var rows: Table
    var nextId: int

    ghost predicate Valid()
      reads this
    {
      nextId >= 1 && IdsMatch(rows) && forall k :: k in rows ==> 0 < k < nextId
    }

    constructor ()
      ensures Valid() && rows == map[]
    {
      rows := map[];
      nextId := 1;
    }

    /** `getPasswordById`: the row with that id, or null. */
    function GetPasswordById(id: int): (r: Option<PasswordRecord>)
      reads this
      requires Valid()
      ensures r.Some? <==> id in rows
      ensures r.Some? ==> r.value == rows[id] && r.value.id == id
    {
      if id in rows then Some(rows[id]) else None
    }

    /** `insertPassword` with id 0: stores the row under a fresh id and returns that id. */
    method InsertPassword(p: PasswordRecord) returns (id: int)
      requires Valid() && p.id == 0
      modifies this
      ensures Valid()
      ensures id > 0 && id !in old(rows) && id == old(nextId) && nextId == old(nextId) + 1
      ensures rows == old(rows)[id := p.(id := id)]
    {
      id := nextId;
      rows := rows[id := p.(id := id)];
      nextId := nextId + 1;
    }

    /**
     * `insertPasswords`: stores every row, in order, each under its own
     * fresh id; the ids handed out are the next `|ps|` values of the counter.
     */
    method InsertPasswords(ps: seq<PasswordRecord>) returns (ids: seq<int>)
      requires Valid() && forall i :: 0 <= i < |ps| ==> ps[i].id == 0
      modifies this
      ensures Valid() && nextId == old(nextId) + |ps|
      ensures |ids| == |ps| && forall i :: 0 <= i < |ids| ==> ids[i] == old(nextId) + i
      ensures Appended(old(rows), rows, old(nextId), ps)
    {
      ids := [];
      var n := 0;
      while n < |ps|
        invariant 0 <= n <= |ps| && |ids| == n
        invariant Valid() && nextId == old(nextId) + n
        invariant forall i :: 0 <= i < n ==> ids[i] == old(nextId) + i
        invariant Appended(old(rows), rows, old(nextId), ps[..n])
      {
        var id := InsertPassword(ps[n]);
        ids := ids + [id];
        n := n + 1;
      }
      assert ps[..n] == ps;
    }

    /** `updatePassword`: replaces the row with the same id; no row with that id, no change. */
    method UpdatePassword(p: PasswordRecord)
      requires Valid()
      modifies this
      ensures Valid() && nextId == old(nextId)
      ensures rows == if p.id in old(rows) then old(rows)[p.id := p] else old(rows)
    {
      if p.id in rows {
        rows := rows[p.id := p];
      }
    }

    /** `deletePassword`: removes the row with the same id, if there is one. */
    method DeletePassword(p: PasswordRecord)
      requires Valid()
      modifies this
      ensures Valid() && nextId == old(nextId)
      ensures rows == old(rows) - {p.id}
    {
      rows := rows - {p.id};
    }
  }
}

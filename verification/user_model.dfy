/** The `users` store of lib/models/user.ts on a table of rows. The table's keys come
    from its definition in lib/db.ts: `id` is the primary key and `email` is unique, so
    an `INSERT` that repeats either fails. bcrypt is an ideal hash: a stored hash
    records the text it digests, and only `VerifyPassword` looks at it. */
module UserModel {
  import opened Wrappers
  import opened Schema
  import Ordering
  import Text

  /** `bcrypt.hash(password, salt)` with the salt of `bcrypt.genSalt(rounds)`. */
  datatype PasswordHash = Bcrypt(rounds: nat, salt: string, digestOf: string)

  /** A row of `users`; `timezone` has a column default. */
  datatype UserRow = UserRow(id: string, email: string, password: PasswordHash, name: string,
                             timezone: string)

  type Table = seq<UserRow>

  const SALT_ROUNDS: nat := 10
  const DEFAULT_TIMEZONE: string := "America/Mexico_City"
  const DUPLICATE_KEY: string := "ER_DUP_ENTRY"

  /** Two emails are the same key under the column's default collation, which ignores
      case; the model folds ASCII letters. */
  predicate SameEmail(a: string, b: string) {
    Text.ToLower(a) == Text.ToLower(b)
  }

  /** The primary key and the unique email hold. */
  predicate WellKeyed(table: Table) {
    forall i, j :: 0 <= i < j < |table| ==>
      table[i].id != table[j].id && !SameEmail(table[i].email, table[j].email)
  }

  /** What `SELECT id, email, name, password` reads. */
  datatype UserWithPassword = UserWithPassword(id: string, email: string, name: string,
                                               password: PasswordHash)

  /** The `User` of lib/models/user.ts: no password, no timezone. */
  datatype PublicUser = PublicUser(id: string, email: string, name: string)

  function WithPassword(r: UserRow): UserWithPassword {
    UserWithPassword(r.id, r.email, r.name, r.password)
  }

  /** `getUserByEmail`: the first row whose email the collation equates with the one
      asked for, or null. */
  function GetUserByEmail(table: Table, email: string): (r: Option<UserWithPassword>)
    ensures r.None? <==> forall i :: 0 <= i < |table| ==> !SameEmail(table[i].email, email)
    ensures r.Some? ==> SameEmail(r.value.email, email)
    ensures r.Some? ==> exists i :: 0 <= i < |table| && r.value == WithPassword(table[i])
  {
    match Ordering.First(table, (u: UserRow) => SameEmail(u.email, email))
    case None => None
    case Some(u) => Some(WithPassword(u))
  }

  /** In a well-keyed table the lookup by email finds the one row holding it, whatever
      the case the email is written in. */
  lemma EmailFindsRow(table: Table, i: nat, email: string)
    requires WellKeyed(table) && i < |table| && SameEmail(table[i].email, email)
    ensures GetUserByEmail(table, email) == Some(WithPassword(table[i]))
  {
    Ordering.FirstAt(table, (u: UserRow) => SameEmail(u.email, email), i);
  }

  /** Emails that differ only in letter case find the same user. */
  lemma EmailLookupIgnoresCase(table: Table, a: string, b: string)
    requires SameEmail(a, b)
    ensures GetUserByEmail(table, a) == GetUserByEmail(table, b)
  {
    var p := (u: UserRow) => SameEmail(u.email, a);
    var q := (u: UserRow) => SameEmail(u.email, b);
    var r := Ordering.First(table, p);
    if r.Some? {
      var i :| 0 <= i < |table| && table[i] == r.value && p(table[i])
               && forall j :: 0 <= j < i ==> !p(table[j]);
      Ordering.FirstAt(table, q, i);
    }
  }

  /** `getUserById`: the first row with that id, or null. The query selects no timezone
      column, so the `User` it hands over has none. */
  function GetUserById(table: Table, id: string): (r: Option<User>)
    ensures r.None? <==> forall i :: 0 <= i < |table| ==> table[i].id != id
    ensures r.Some? ==> r.value.id == id && r.value.timezone.None?
    ensures r.Some? ==>
      exists i :: 0 <= i < |table| && table[i].id == id
                  && r.value.email == table[i].email && r.value.name == table[i].name
  {
    match Ordering.First(table, (u: UserRow) => u.id == id)
    case None => None
    case Some(u) => Some(User(u.id, u.email, u.name, None))
  }

  /** In a well-keyed table the lookup by id finds the one row holding it. */
  lemma IdFindsRow(table: Table, i: nat)
    requires WellKeyed(table) && i < |table|
    ensures GetUserById(table, table[i].id) == Some(User(table[i].id, table[i].email, table[i].name, None))
  {
    Ordering.FirstAt(table, (u: UserRow) => u.id == table[i].id, i);
  }

  /** `verifyPassword` (`bcrypt.compare`). */
  predicate VerifyPassword(plain: string, hash: PasswordHash) {
    hash.digestOf == plain
  }

  /** `createUser`: stores a salted hash of the password under a fresh uuid and hands
      back only id, email and name. A repeated id or email makes the `INSERT` fail. */
  function CreateUser(table: Table, email: string, password: string, name: string,
                      freshId: string, salt: string)
    : (r: Result<(Table, PublicUser)>)
    ensures r.Failure? <==>
      exists i :: 0 <= i < |table| && (table[i].id == freshId || SameEmail(table[i].email, email))
    ensures r.Failure? ==> r.error == DUPLICATE_KEY
    ensures r.Success? ==> r.value.1 == PublicUser(freshId, email, name)
    ensures r.Success? ==> |r.value.0| == |table| + 1 && r.value.0[..|table|] == table
    ensures r.Success? ==> var row := r.value.0[|table|];
      && row.id == freshId && row.email == email && row.name == name
      && row.password.rounds == SALT_ROUNDS && row.timezone == DEFAULT_TIMEZONE
      && (forall plain :: VerifyPassword(plain, row.password) <==> plain == password)
  {
    if exists i :: 0 <= i < |table| && (table[i].id == freshId || SameEmail(table[i].email, email)) then
      Failure(DUPLICATE_KEY)
    else
      var row := UserRow(freshId, email, Bcrypt(SALT_ROUNDS, salt, password), name, DEFAULT_TIMEZONE);
      assert (table + [row])[..|table|] == table;
      Success((table + [row], PublicUser(freshId, email, name)))
  }

  /** A successful create keeps the table well keyed, and both lookups then find the new
      user. */
  lemma CreateThenFind(table: Table, email: string, password: string, name: string,
                       freshId: string, salt: string)
    requires WellKeyed(table)
    requires CreateUser(table, email, password, name, freshId, salt).Success?
    ensures var t := CreateUser(table, email, password, name, freshId, salt).value.0;
      && WellKeyed(t)
      && GetUserByEmail(t, email).Some? && GetUserByEmail(t, email).value.id == freshId
      && VerifyPassword(password, GetUserByEmail(t, email).value.password)
      && GetUserById(t, freshId) == Some(User(freshId, email, name, None))
  {
    var t := CreateUser(table, email, password, name, freshId, salt).value.0;
    assert t[|table|].email == email && t[|table|].id == freshId;
    EmailFindsRow(t, |table|, email);
    IdFindsRow(t, |table|);
  }

  /** An `Object.entries` list: no key twice. */
  predicate DistinctKeys(entries: seq<(string, string)>) {
    forall i, j :: 0 <= i < j < |entries| ==> entries[i].0 != entries[j].0
  }

  predicate Allowed(entry: (string, string)) {
    entry.0 == "name" || entry.0 == "email"
  }

  /** `validUpdates`: the entries whose key is in `allowedUpdates`, in their order. */
  function ValidUpdates(entries: seq<(string, string)>): seq<(string, string)> {
    Ordering.Filter(entries, Allowed)
  }

  /** The statement `updateUser` sends: its text and its parameters. */
  datatype UpdateQuery = UpdateQuery(sql: string, values: seq<string>)

  function SetClause(entry: (string, string)): string {
    entry.0 + " = ?"
  }

  function ValueOf(entry: (string, string)): string {
    entry.1
  }

  /** Assigns one entry to its column; other keys are ignored. */
  function SetColumn(row: UserRow, entry: (string, string)): UserRow {
    if entry.0 == "name" then row.(name := entry.1)
    else if entry.0 == "email" then row.(email := entry.1)
    else row
  }

  /** The row after `SET k1 = v1, k2 = v2, ...`. */
  function SetColumns(row: UserRow, entries: seq<(string, string)>): UserRow
    decreases |entries|
  {
    if |entries| == 0 then row else SetColumns(SetColumn(row, entries[0]), entries[1..])
  }

  function UpdateRows(table: Table, id: string, entries: seq<(string, string)>): Table {
    Ordering.Map(table, (r: UserRow) => if r.id == id then SetColumns(r, entries) else r)
  }

  datatype UpdateRun = UpdateRun(table: Table, query: Option<UpdateQuery>, updated: bool)

  /** `updateUser`: keeps only `name` and `email`; without either it answers false and
      sends nothing; otherwise one `UPDATE` whose clauses and values follow the entries'
      order, with the id as last value, and true when a row matched. */
  function UpdateUser(table: Table, id: string, entries: seq<(string, string)>): (r: UpdateRun)
    ensures r.query.None? <==> forall k :: 0 <= k < |entries| ==> !Allowed(entries[k])
    ensures r.query.None? ==> r.table == table && !r.updated
    ensures r.query.Some? ==>
      var valid := ValidUpdates(entries);
      && r.query.value.values == Ordering.Map(valid, ValueOf) + [id]
      && r.query.value.sql
         == "UPDATE users SET " + Text.Join(Ordering.Map(valid, SetClause), ", ") + " WHERE id = ?"
      && (forall k :: 0 <= k < |valid| ==> Allowed(valid[k]))
    ensures r.updated <==> r.query.Some? && exists i :: 0 <= i < |table| && table[i].id == id
    ensures |r.table| == |table|
  {
    var valid := ValidUpdates(entries);
    if |valid| == 0 then UpdateRun(table, None, false)
    else
      var sql := "UPDATE users SET " + Text.Join(Ordering.Map(valid, SetClause), ", ") + " WHERE id = ?";
      var query := UpdateQuery(sql, Ordering.Map(valid, ValueOf) + [id]);
      UpdateRun(UpdateRows(table, id, valid), Some(query),
                Ordering.Count(table, (r: UserRow) => r.id == id) > 0)
  }

  /** Assigning a list of entries: id, password and timezone never change; a column
      named by an entry takes that entry's value; any other column keeps its value. */
  lemma {:induction false} SetColumnsFacts(row: UserRow, entries: seq<(string, string)>)
    requires DistinctKeys(entries)
    decreases |entries|
    ensures var r := SetColumns(row, entries);
      && r.id == row.id && r.password == row.password && r.timezone == row.timezone
      && (forall k :: 0 <= k < |entries| && entries[k].0 == "name" ==> r.name == entries[k].1)
      && ((forall k :: 0 <= k < |entries| ==> entries[k].0 != "name") ==> r.name == row.name)
      && (forall k :: 0 <= k < |entries| && entries[k].0 == "email" ==> r.email == entries[k].1)
      && ((forall k :: 0 <= k < |entries| ==> entries[k].0 != "email") ==> r.email == row.email)
  {
    if |entries| > 0 {
      var head := SetColumn(row, entries[0]);
      var rest := entries[1..];
      assert DistinctKeys(rest) by {
        forall i, j | 0 <= i < j < |rest| ensures rest[i].0 != rest[j].0 {
          assert rest[i] == entries[i + 1] && rest[j] == entries[j + 1];
        }
      }
      SetColumnsFacts(head, rest);
      forall k | 1 <= k < |entries|
        ensures entries[k].0 != entries[0].0 && entries[k] == rest[k - 1]
      {
      }
    }
  }

  /** The whitelist a filtered list of entries keeps: no key twice, and a key that is
      allowed is there exactly when the full list has it, with the same value. */
  lemma {:induction false} ValidUpdatesKeepsAllowed(entries: seq<(string, string)>)
    requires DistinctKeys(entries)
    ensures DistinctKeys(ValidUpdates(entries))
    ensures forall k :: 0 <= k < |entries| && Allowed(entries[k]) ==> entries[k] in ValidUpdates(entries)
    ensures forall e :: e in ValidUpdates(entries) ==> e in entries && Allowed(e)
  {
    var valid := ValidUpdates(entries);
    forall i, j | 0 <= i < j < |valid|
      ensures valid[i].0 != valid[j].0
    {
      FilterKeepsDistinct(entries, i, j);
    }
  }

  lemma {:induction false} FilterKeepsDistinct(entries: seq<(string, string)>, i: nat, j: nat)
    requires DistinctKeys(entries)
    requires i < j < |ValidUpdates(entries)|
    ensures ValidUpdates(entries)[i].0 != ValidUpdates(entries)[j].0
  {
    var rest := entries[1..];
    assert DistinctKeys(rest) by {
      forall a, b | 0 <= a < b < |rest| ensures rest[a].0 != rest[b].0 {
        assert rest[a] == entries[a + 1] && rest[b] == entries[b + 1];
      }
    }
    if Allowed(entries[0]) {
      assert ValidUpdates(entries) == [entries[0]] + ValidUpdates(rest);
      if i == 0 {
        var e := ValidUpdates(rest)[j - 1];
        assert e in rest;
      } else {
        FilterKeepsDistinct(rest, i - 1, j - 1);
      }
    } else {
      FilterKeepsDistinct(rest, i, j);
    }
  }

  /** The whitelist: an update changes only `name` and `email`, only on the row with
      that id, and to the values the entries give; a `password`, `id` or any other key
      has no effect. */
  lemma UpdateWhitelist(table: Table, id: string, entries: seq<(string, string)>, i: nat)
    requires DistinctKeys(entries) && i < |table|
    ensures var r := UpdateUser(table, id, entries).table[i];
      && r.id == table[i].id && r.password == table[i].password && r.timezone == table[i].timezone
      && (table[i].id != id ==> r == table[i])
      && (table[i].id == id ==>
            && (forall k :: 0 <= k < |entries| && entries[k].0 == "name" ==> r.name == entries[k].1)
            && ((forall k :: 0 <= k < |entries| ==> entries[k].0 != "name") ==> r.name == table[i].name)
            && (forall k :: 0 <= k < |entries| && entries[k].0 == "email" ==> r.email == entries[k].1)
            && ((forall k :: 0 <= k < |entries| ==> entries[k].0 != "email") ==> r.email == table[i].email))
  {
    var valid := ValidUpdates(entries);
    var r := UpdateUser(table, id, entries).table[i];
    if |valid| > 0 && table[i].id == id {
      assert r == SetColumns(table[i], valid);
      ValidUpdatesKeepsAllowed(entries);
      SetColumnsFacts(table[i], valid);
      ColumnFromEntries(entries, valid, "name");
      ColumnFromEntries(entries, valid, "email");
    } else if |valid| == 0 {
      assert r == table[i];
      ValidUpdatesKeepsAllowed(entries);
    } else {
      assert r == table[i];
    }
  }

  /** A name or email key is in the full entry list exactly when it is in the valid one,
      with the same value. */
  lemma ColumnFromEntries(entries: seq<(string, string)>, valid: seq<(string, string)>, key: string)
    requires key == "name" || key == "email"
    requires forall k :: 0 <= k < |entries| && Allowed(entries[k]) ==> entries[k] in valid
    requires forall e :: e in valid ==> e in entries
    ensures (forall k :: 0 <= k < |entries| ==> entries[k].0 != key)
            ==> forall m :: 0 <= m < |valid| ==> valid[m].0 != key
    ensures forall k :: 0 <= k < |entries| && entries[k].0 == key ==>
      exists m :: 0 <= m < |valid| && valid[m] == entries[k]
  {
    forall k | 0 <= k < |entries| && entries[k].0 == key
      ensures exists m :: 0 <= m < |valid| && valid[m] == entries[k]
    {
      assert entries[k] in valid;
    }
    if forall k :: 0 <= k < |entries| ==> entries[k].0 != key {
      forall m | 0 <= m < |valid| ensures valid[m].0 != key {
        assert valid[m] in entries;
      }
    }
  }

  /** `deleteUser`: removes the row with that id, keeping the others in order; true when
      one was removed. */
  function DeleteUser(table: Table, id: string): (r: (Table, bool))
    ensures forall i :: 0 <= i < |r.0| ==> r.0[i].id != id
    ensures Ordering.IsSubsequence(r.0, table)
    ensures forall i :: 0 <= i < |table| && table[i].id != id ==> table[i] in r.0
    ensures r.1 <==> exists i :: 0 <= i < |table| && table[i].id == id
  {
    var kept := Ordering.Filter(table, (u: UserRow) => u.id != id);
    Ordering.FilterSplits(table, (u: UserRow) => u.id == id, (u: UserRow) => u.id != id);
    Ordering.CountIsFilterLength(table, (u: UserRow) => u.id == id);
    (kept, |kept| < |table|)
  }

  /** After a delete neither lookup finds the user any more: not by id, and, the email
      being unique, not by the email the deleted row held. */
  lemma DeleteThenFind(table: Table, id: string)
    ensures GetUserById(DeleteUser(table, id).0, id).None?
    ensures WellKeyed(table) ==> forall i :: 0 <= i < |table| && table[i].id == id ==>
              GetUserByEmail(DeleteUser(table, id).0, table[i].email).None?
  {
    var kept := DeleteUser(table, id).0;
    if WellKeyed(table) {
      forall i, k | 0 <= i < |table| && table[i].id == id && 0 <= k < |kept|
        ensures !SameEmail(kept[k].email, table[i].email)
      {
        var j :| 0 <= j < |table| && table[j] == kept[k];
        assert j != i;
      }
    }
  }
}

/** The migration that makes chat logs unique by session, turn and role, without losing content. */
module ChatLogMigration {

  datatype Row = Row(session: string, turn: int, role: string, content: string)

  /** The table by primary key. */
  type Rows = map<int, Row>

  /**
   * The database's text functions: `key` is the class of a text under the column collation, `lowerTrim` is
   * `LOWER(TRIM(...))`, and `trim` is `TRIM` compared as bytes.
   */
  datatype Sql = Sql(key: string -> string, lowerTrim: string -> string, trim: string -> string)

  /** The columns of the unique index, as the index compares them. */
  function IndexKey(r: Row, sql: Sql): (string, int, string) {
    (sql.key(r.session), r.turn, sql.key(r.role))
  }

  /** The same with the role normalised. */
  function Slot(r: Row, sql: Sql): (string, int, string) {
    (sql.key(r.session), r.turn, sql.key(sql.lowerTrim(r.role)))
  }

  predicate Unique(rows: Rows, sql: Sql) {
    forall a, b :: a in rows && b in rows && a < b ==> IndexKey(rows[a], sql) != IndexKey(rows[b], sql)
  }

  // ---------- The preflight and the statements ----------

  /** The preflight query: two rows share a slot but not their trimmed content. */
  predicate Conflict(rows: Rows, sql: Sql) {
    exists a, b :: a in rows && b in rows && a < b && Slot(rows[a], sql) == Slot(rows[b], sql)
                   && sql.trim(rows[a].content) != sql.trim(rows[b].content)
  }

  function NormaliseRole(r: Row, sql: Sql): Row {
    if sql.key(r.role) != sql.key(sql.lowerTrim(r.role)) then r.(role := sql.lowerTrim(r.role)) else r
  }

  /** `UPDATE chat_logs SET role = LOWER(TRIM(role)) WHERE role <> LOWER(TRIM(role))`. */
  function Normalised(rows: Rows, sql: Sql): Rows {
    map id | id in rows :: NormaliseRole(rows[id], sql)
  }

  /** An earlier row has the same index key and trimmed content. */
  predicate Duplicate(rows: Rows, id: int, sql: Sql)
    requires id in rows
  {
    exists k :: k in rows && k < id && IndexKey(rows[k], sql) == IndexKey(rows[id], sql)
                && sql.trim(rows[k].content) == sql.trim(rows[id].content)
  }

  /** The `DELETE` of later duplicates, found by a join of the table with itself. */
  function Deduplicated(rows: Rows, sql: Sql): Rows {
    map id | id in rows && !Duplicate(rows, id, sql) :: rows[id]
  }

  function Migrated(rows: Rows, sql: Sql): Rows {
    Deduplicated(Normalised(rows, sql), sql)
  }

  // ---------- The keys, column by column ----------

  /** The columns of the index agree, as the collation compares them. */
  predicate SameColumns(r: Row, s: Row, sql: Sql) {
    sql.key(r.session) == sql.key(s.session) && r.turn == s.turn && sql.key(r.role) == sql.key(s.role)
  }

  /** They agree once the roles are lower-cased and trimmed. */
  predicate SameSlot(r: Row, s: Row, sql: Sql) {
    && sql.key(r.session) == sql.key(s.session) && r.turn == s.turn
    && sql.key(sql.lowerTrim(r.role)) == sql.key(sql.lowerTrim(s.role))
  }

  lemma KeysAre(r: Row, s: Row, sql: Sql)
    ensures IndexKey(r, sql) == IndexKey(s, sql) <==> SameColumns(r, s, sql)
    ensures Slot(r, sql) == Slot(s, sql) <==> SameSlot(r, s, sql)
  {
  }

  /** Two rows share a slot with different trimmed contents. */
  predicate Conflicting(rows: Rows, sql: Sql) {
    exists a, b :: a in rows && b in rows && a < b && SameSlot(rows[a], rows[b], sql)
                   && sql.trim(rows[a].content) != sql.trim(rows[b].content)
  }

  predicate NoTwoAlike(rows: Rows, sql: Sql) {
    forall a, b :: a in rows && b in rows && a < b ==> !SameColumns(rows[a], rows[b], sql)
  }

  lemma {:induction false} ColumnsDecide(rows: Rows, sql: Sql)
    ensures Conflict(rows, sql) <==> Conflicting(rows, sql)
    ensures Unique(rows, sql) <==> NoTwoAlike(rows, sql)
    ensures SharedSlot(rows, sql) <==>
              exists a, b :: a in rows && b in rows && a < b && SameSlot(rows[a], rows[b], sql)
  {
    hide IndexKey, Slot, SameColumns, SameSlot;
    forall a, b | a in rows && b in rows
      ensures IndexKey(rows[a], sql) == IndexKey(rows[b], sql) <==> SameColumns(rows[a], rows[b], sql)
      ensures Slot(rows[a], sql) == Slot(rows[b], sql) <==> SameSlot(rows[a], rows[b], sql)
    {
      KeysAre(rows[a], rows[b], sql);
    }
    if Conflicting(rows, sql) {
      var a, b :| a in rows && b in rows && a < b && SameSlot(rows[a], rows[b], sql)
                  && sql.trim(rows[a].content) != sql.trim(rows[b].content);
      assert Slot(rows[a], sql) == Slot(rows[b], sql);
    }
  }

  // ---------- What the migration keeps and establishes ----------

  /** Normalising brings every row to the index key of its slot. */
  lemma NormalisedKey(r: Row, sql: Sql)
    ensures IndexKey(NormaliseRole(r, sql), sql) == Slot(r, sql)
    ensures NormaliseRole(r, sql).content == r.content
  {
  }

  /** In the table's own terms: a row goes iff an earlier one shares its slot and trimmed content. */
  lemma {:induction false} MigratedIff(rows: Rows, id: int, sql: Sql)
    ensures id in Migrated(rows, sql) <==>
              id in rows && forall k :: k in rows && k < id && SameSlot(rows[k], rows[id], sql) ==>
                              sql.trim(rows[k].content) != sql.trim(rows[id].content)
    ensures id in Migrated(rows, sql) ==>
              var (was, now) := (rows[id], Migrated(rows, sql)[id]);
              && now == was.(role := now.role)
              && now.role == if sql.key(was.role) == sql.key(sql.lowerTrim(was.role)) then was.role
                             else sql.lowerTrim(was.role)
  {
    MigratedSlots(rows, id, sql);
    hide Migrated, Slot, SameSlot;
    if id in rows {
      forall k | k in rows ensures Slot(rows[k], sql) == Slot(rows[id], sql) <==> SameSlot(rows[k], rows[id], sql) {
        KeysAre(rows[k], rows[id], sql);
      }
    }
  }

  lemma {:induction false} MigratedSlots(rows: Rows, id: int, sql: Sql)
    ensures id in Migrated(rows, sql) <==>
              id in rows && forall k :: k in rows && k < id && Slot(rows[k], sql) == Slot(rows[id], sql) ==>
                              sql.trim(rows[k].content) != sql.trim(rows[id].content)
    ensures id in Migrated(rows, sql) ==> Migrated(rows, sql)[id] == NormaliseRole(rows[id], sql)
  {
    hide IndexKey, Slot, NormaliseRole;
    var next := Normalised(rows, sql);
    forall k | k in rows
      ensures k in next && IndexKey(next[k], sql) == Slot(rows[k], sql) && next[k].content == rows[k].content
    {
      NormalisedKey(rows[k], sql);
    }
    if id in rows && Duplicate(next, id, sql) {
      var k :| k in next && k < id && IndexKey(next[k], sql) == IndexKey(next[id], sql)
               && sql.trim(next[k].content) == sql.trim(next[id].content);
      assert k in rows && Slot(rows[k], sql) == Slot(rows[id], sql);
    }
  }

  /** Every row's trimmed content survives in its slot, in the same or an earlier row. */
  lemma {:induction false} ContentKept(rows: Rows, id: int, sql: Sql) returns (kept: int)
    requires id in rows
    ensures kept in Migrated(rows, sql) && kept in rows && kept <= id
    ensures IndexKey(Migrated(rows, sql)[kept], sql) == Slot(rows[id], sql)
    ensures sql.trim(Migrated(rows, sql)[kept].content) == sql.trim(rows[id].content)
    decreases set k | k in rows && k < id
  {
    hide Slot, IndexKey, Migrated, NormaliseRole;
    MigratedSlots(rows, id, sql);
    if id in Migrated(rows, sql) {
      kept := id;
      NormalisedKey(rows[id], sql);
    } else {
      var k :| k in rows && k < id && Slot(rows[k], sql) == Slot(rows[id], sql)
               && sql.trim(rows[k].content) == sql.trim(rows[id].content);
      Fewer(rows, k, id);
      kept := ContentKept(rows, k, sql);
    }
  }

  lemma Fewer(rows: Rows, k: int, id: int)
    requires k in rows && k < id
    ensures (set j | j in rows && j < k) < (set j | j in rows && j < id)
  {
    var a, b := set j | j in rows && j < k, set j | j in rows && j < id;
    assert k in b && k !in a;
    forall j | j in a ensures j in b {
    }
  }

  /** The preflight passes iff the unique index can be added after the two statements. */
  lemma {:induction false} PreflightIff(rows: Rows, sql: Sql)
    ensures !Conflict(rows, sql) <==> Unique(Migrated(rows, sql), sql)
    ensures !Conflicting(rows, sql) <==> NoTwoAlike(Migrated(rows, sql), sql)
  {
    ColumnsDecide(rows, sql);
    ColumnsDecide(Migrated(rows, sql), sql);
    hide Conflicting, NoTwoAlike;
    hide Slot, IndexKey, Migrated, NormaliseRole;
    var m := Migrated(rows, sql);
    if Conflict(rows, sql) {
      var a, b :| a in rows && b in rows && a < b && Slot(rows[a], sql) == Slot(rows[b], sql)
                  && sql.trim(rows[a].content) != sql.trim(rows[b].content);
      var x := ContentKept(rows, a, sql);
      var y := ContentKept(rows, b, sql);
      assert x != y && IndexKey(m[x], sql) == IndexKey(m[y], sql);
    } else {
      forall a, b | a in m && b in m && a < b ensures IndexKey(m[a], sql) != IndexKey(m[b], sql) {
        MigratedSlots(rows, a, sql);
        MigratedSlots(rows, b, sql);
        NormalisedKey(rows[a], sql);
        NormalisedKey(rows[b], sql);
      }
    }
  }

  /** After a passed preflight exactly the lowest id of every slot is left. */
  lemma {:induction false} SurvivorsAreLowest(rows: Rows, id: int, sql: Sql)
    requires !Conflict(rows, sql)
    ensures id in Migrated(rows, sql) <==>
              id in rows && forall k :: k in rows && k < id ==> Slot(rows[k], sql) != Slot(rows[id], sql)
  {
    hide Slot, Migrated;
    MigratedSlots(rows, id, sql);
  }

  /** `LOWER(TRIM(...))` settles after one application, as far as the collation can tell. */
  ghost predicate Settles(sql: Sql) {
    forall role :: sql.key(sql.lowerTrim(sql.lowerTrim(role))) == sql.key(sql.lowerTrim(role))
  }

  lemma MigratedIsNormal(rows: Rows, sql: Sql)
    requires Settles(sql)
    ensures forall id :: id in Migrated(rows, sql) ==>
              Slot(Migrated(rows, sql)[id], sql) == IndexKey(Migrated(rows, sql)[id], sql)
              && NormaliseRole(Migrated(rows, sql)[id], sql) == Migrated(rows, sql)[id]
  {
    hide Migrated;
    forall id | id in Migrated(rows, sql)
      ensures Slot(Migrated(rows, sql)[id], sql) == IndexKey(Migrated(rows, sql)[id], sql)
      ensures NormaliseRole(Migrated(rows, sql)[id], sql) == Migrated(rows, sql)[id]
    {
      MigratedSlots(rows, id, sql);
      var role := rows[id].role;
      assert sql.key(sql.lowerTrim(sql.lowerTrim(role))) == sql.key(sql.lowerTrim(role));
    }
  }

  /** A second run changes nothing. */
  lemma {:induction false} SecondRunChangesNothing(rows: Rows, sql: Sql)
    requires Settles(sql)
    ensures Migrated(Migrated(rows, sql), sql) == Migrated(rows, sql)
  {
    hide Slot, IndexKey, Migrated, NormaliseRole;
    var m := Migrated(rows, sql);
    MigratedIsNormal(rows, sql);
    forall id ensures id in Migrated(m, sql) <==> id in m
              ensures id in m ==> Migrated(m, sql)[id] == m[id] {
      MigratedSlots(m, id, sql);
      if id in m {
        MigratedSlots(rows, id, sql);
        forall k | k in m && k < id && Slot(m[k], sql) == Slot(m[id], sql)
          ensures sql.trim(m[k].content) != sql.trim(m[id].content)
        {
          MigratedSlots(rows, k, sql);
          NormalisedKey(rows[k], sql);
          NormalisedKey(rows[id], sql);
        }
      }
    }
  }

  // ---------- The table ----------

  datatype Outcome = Done | ConflictingContent | DuplicateEntry

  /** Two rows fall into one slot. */
  predicate SharedSlot(rows: Rows, sql: Sql) {
    exists a, b :: a in rows && b in rows && a < b && Slot(rows[a], sql) == Slot(rows[b], sql)
  }

  lemma NormalisedUniqueIff(rows: Rows, sql: Sql)
    ensures Unique(Normalised(rows, sql), sql) <==> !SharedSlot(rows, sql)
  {
    hide Slot, IndexKey, NormaliseRole;
    var next := Normalised(rows, sql);
    forall k | k in rows ensures k in next && IndexKey(next[k], sql) == Slot(rows[k], sql) {
      NormalisedKey(rows[k], sql);
    }
  }

  /** Two rows agree in index key and trimmed content. */
  predicate SameEntry(r: Row, s: Row, sql: Sql) {
    IndexKey(r, sql) == IndexKey(s, sql) && sql.trim(r.content) == sql.trim(s.content)
  }

  /** No earlier row has the same index key and trimmed content. */
  predicate FirstOfItsKind(rows: Rows, id: int, sql: Sql)
    requires id in rows
  {
    forall k :: k in rows && k < id ==> !SameEntry(rows[k], rows[id], sql)
  }

  lemma DeduplicatedUnique(rows: Rows, sql: Sql)
    ensures Unique(rows, sql) ==> Unique(Deduplicated(rows, sql), sql)
  {
    hide IndexKey;
  }

  lemma DeduplicatedKeeps(rows: Rows, sql: Sql)
    ensures var kept := Deduplicated(rows, sql);
            && (forall id :: id in kept <==> id in rows && FirstOfItsKind(rows, id, sql))
            && (forall id :: id in kept ==> kept[id] == rows[id])
            && forall id :: id in rows ==> exists k :: k in kept && SameEntry(kept[k], rows[id], sql)
  {
    hide IndexKey;
    forall id | id in rows
      ensures exists k :: k in Deduplicated(rows, sql) && SameEntry(Deduplicated(rows, sql)[k], rows[id], sql)
    {
      var k := KeptEntry(rows, id, sql);
    }
    forall id | id in rows ensures Duplicate(rows, id, sql) <==> !FirstOfItsKind(rows, id, sql) {
      if Duplicate(rows, id, sql) {
        var k :| k in rows && k < id && IndexKey(rows[k], sql) == IndexKey(rows[id], sql)
                 && sql.trim(rows[k].content) == sql.trim(rows[id].content);
        assert SameEntry(rows[k], rows[id], sql);
      }
    }
  }

  lemma {:induction false} KeptEntry(rows: Rows, id: int, sql: Sql) returns (kept: int)
    requires id in rows
    ensures kept in Deduplicated(rows, sql) && SameEntry(Deduplicated(rows, sql)[kept], rows[id], sql)
    decreases set k | k in rows && k < id
  {
    hide IndexKey;
    if Duplicate(rows, id, sql) {
      var k :| k in rows && k < id && IndexKey(rows[k], sql) == IndexKey(rows[id], sql)
               && sql.trim(rows[k].content) == sql.trim(rows[id].content);
      Fewer(rows, k, id);
      kept := KeptEntry(rows, k, sql);
    } else {
      kept := id;
    }
  }

  class ChatLogs {
    const sql: Sql
    var rows: Rows
    var indexed: bool

    /** The unique index, once added, holds. */
    predicate Valid()
      reads this
    {
      indexed ==> Unique(rows, sql)
    }

    constructor (sql: Sql, rows: Rows)
      ensures this.sql == sql && this.rows == rows && !indexed && Valid()
    {
      this.sql, this.rows, indexed := sql, rows, false;
    }

    /** A statement that would break the unique index fails without effect. */
    method UpdateRoles() returns (ok: bool)
      requires Valid()
      modifies this`rows
      ensures Valid()
      ensures ok <==> !indexed || !SharedSlot(old(rows), sql)
      ensures rows == if ok then Normalised(old(rows), sql) else old(rows)
    {
      hide Unique, SharedSlot;
      NormalisedUniqueIff(rows, sql);
      ok := !indexed || Unique(Normalised(rows, sql), sql);
      if ok {
        rows := Normalised(rows, sql);
      }
    }

    /**
     * The `DELETE`. A row stays, unchanged, iff no earlier row has its index key and trimmed content; so for every row
     * that was there, one with its key and content is left.
     */
    method DeleteDuplicates()
      requires Valid()
      modifies this`rows
      ensures Valid() && rows == Deduplicated(old(rows), sql)
      ensures forall id :: id in rows <==> id in old(rows) && FirstOfItsKind(old(rows), id, sql)
      ensures forall id :: id in rows ==> rows[id] == old(rows)[id]
      ensures forall id :: id in old(rows) ==> exists k :: k in rows && SameEntry(rows[k], old(rows)[id], sql)
    {
      hide SameEntry, FirstOfItsKind, Deduplicated, Unique;
      DeduplicatedKeeps(rows, sql);
      assert indexed ==> Unique(Deduplicated(rows, sql), sql) by {
        DeduplicatedUnique(rows, sql);
      }
      rows := Deduplicated(rows, sql);
    }

    /** `ADD UNIQUE INDEX IF NOT EXISTS`. */
    method AddUniqueIndex() returns (ok: bool)
      requires Valid()
      modifies this`indexed
      ensures Valid() && (ok <==> Unique(rows, sql)) && (indexed <==> old(indexed) || ok)
    {
      ok := Unique(rows, sql);
      indexed := indexed || ok;
    }

    /**
     * The preflight and the three statements. Conflicting content stops the migration before anything changes.
     * Without the index nothing else can stop it; with the index in place it fails, again without a change, iff two
     * rows share a slot. When it is done the index holds and the table is the migrated one.
     */
    method ApplyMigration() returns (outcome: Outcome)
      requires Valid()
      modifies this
      ensures Valid()
      ensures outcome == ConflictingContent <==> Conflicting(old(rows), sql)
      ensures outcome == Done <==> if old(indexed) then !SharedSlot(old(rows), sql) else !Conflicting(old(rows), sql)
      ensures outcome == Done ==> rows == Migrated(old(rows), sql) && indexed && NoTwoAlike(rows, sql)
      ensures outcome != Done ==> rows == old(rows) && indexed == old(indexed)
    {
      hide Slot, Unique, Normalised, Deduplicated, NoTwoAlike, Conflicting;
      PreflightIff(rows, sql);
      ColumnsDecide(rows, sql);
      ColumnsDecide(Migrated(rows, sql), sql);
      if Conflict(rows, sql) {
        return ConflictingContent;
      }
      var updated := UpdateRoles();
      if !updated {
        return DuplicateEntry;
      }
      DeleteDuplicates();
      var added := AddUniqueIndex();
      outcome := if added then Done else DuplicateEntry;
    }
  }

  /** With the index in place, a second spelling of a role with the same content passes the preflight and then fails. */
  lemma SecondSpellingFails(sql: Sql)
    requires sql.key("user") != sql.key(" user") && sql.lowerTrim("user") == sql.lowerTrim(" user")
    ensures var rows := map[1 := Row("s", 0, "user", "hi"), 2 := Row("s", 0, " user", "hi")];
            Unique(rows, sql) && !Conflict(rows, sql) && SharedSlot(rows, sql)
  {
    var rows := map[1 := Row("s", 0, "user", "hi"), 2 := Row("s", 0, " user", "hi")];
    assert 1 in rows && 2 in rows && Slot(rows[1], sql) == Slot(rows[2], sql);
  }
}

/**
 * The database object of the older service (`src/database/DB.kt`): it writes and reads the
 * ArkivV3 table with the same rules as the current writer and reader, looks rows up by id
 * alone (`henteId`), and keeps the Kafka offset in the one-row OffsetStorage table.
 */
module LegacyDb {
  import opened Wrappers
  import opened Decimal
  import opened Tables
  import opened Models
  import opened KotlinCollections
  import opened ArkivDb

  /** The key of the offset row. */
  const OffsetKey: string := "henvendelse"

  /** `henteOffset`'s answer for a storage content: the offset of the key's row, or -1. */
  function OffsetOf(offsets: map<string, int>): int {
    if OffsetKey in offsets then offsets[OffsetKey] else -1
  }

  /** The rows with a given id, each shown unredacted. */
  function RowsWithId(rows: seq<Row>, id: int): seq<Row> {
    Select(rows, [IdIs(id)])
  }

  /** How many of the rows are confidential. */
  function CountConfidential(rows: seq<Row>): (n: nat)
    ensures n <= |rows|
    decreases |rows|
  {
    if rows == [] then 0 else (if rows[0].konfidentiellt then 1 else 0) + CountConfidential(rows[1..])
  }

  lemma {:induction false} SelectMembers(rows: seq<Row>, q: Query)
    ensures forall row :: row in Select(rows, q) <==> row in rows && Selects(q, row)
    decreases |rows|
  {
    if rows != [] {
      SelectMembers(rows[1..], q);
      assert rows == [rows[0]] + rows[1..];
    }
  }

  /** Looking up by id gives every row that has it, confidential rows included. */
  lemma RowsWithIdMembers(rows: seq<Row>, id: int)
    ensures forall row :: row in RowsWithId(rows, id) <==> row in rows && row.id == id
  {
    SelectMembers(rows, [IdIs(id)]);
    forall row ensures Selects([IdIs(id)], row) <==> row.id == id {
      assert [IdIs(id)][0] == IdIs(id);
    }
  }

  /** In a table whose ids increase, at most one row has a given id. */
  lemma {:induction false} RowsWithIdAtMostOne(rows: seq<Row>, id: int)
    requires IdsIncreasing(rows)
    ensures |RowsWithId(rows, id)| <= 1
    decreases |rows|
  {
    if rows != [] {
      assert IdsIncreasing(rows[1..]) by {
        forall i, j | 0 <= i < j < |rows[1..]| ensures rows[1..][i].id < rows[1..][j].id {
          assert rows[1..][i] == rows[i + 1] && rows[1..][j] == rows[j + 1];
        }
      }
      RowsWithIdAtMostOne(rows[1..], id);
      assert Selects([IdIs(id)], rows[0]) <==> rows[0].id == id by {
        assert [IdIs(id)][0] == IdIs(id);
      }
      if rows[0].id == id {
        forall i | 0 <= i < |rows[1..]| ensures rows[1..][i].id != id {
          assert rows[1..][i] == rows[i + 1];
        }
        NoRowWithId(rows[1..], id);
      }
    }
  }

  lemma {:induction false} NoRowWithId(rows: seq<Row>, id: int)
    requires forall i :: 0 <= i < |rows| ==> rows[i].id != id
    ensures RowsWithId(rows, id) == []
    decreases |rows|
  {
    if rows != [] {
      assert !Selects([IdIs(id)], rows[0]) by {
        assert [IdIs(id)][0] == IdIs(id);
      }
      NoRowWithId(rows[1..], id);
    }
  }

  /** The older service's store: the ArkivV3 table and the OffsetStorage rows, keyed by id. */
  class LegacyDb {
    const arkivV3: ArkivTable
    var offsets: map<string, int>

    ghost predicate Valid()
      reads this, arkivV3
    {
      arkivV3.generation == ArkivV3 && arkivV3.Valid()
    }

    constructor (arkivV3: ArkivTable, offsets: map<string, int>)
      requires arkivV3.generation == ArkivV3 && arkivV3.Valid()
      ensures Valid() && this.arkivV3 == arkivV3 && this.offsets == offsets
    {
      this.arkivV3 := arkivV3;
      this.offsets := offsets;
    }

    /**
     * `storeOffset`: an UPDATE of every OffsetStorage row, with no WHERE clause and no insert,
     * setting the key to "henvendelse" and the offset to its low 32 bits. With no row it does
     * nothing; with one row that row becomes the key's; with more, all rows would take the same
     * key and the primary key is violated.
     */
    method StoreOffset(offset: int) returns (failure: Option<Failure>)
      modifies this
      ensures |old(offsets)| == 0 ==> offsets == old(offsets) && failure == None
      ensures |old(offsets)| == 1 ==> offsets == map[OffsetKey := ToInt32(offset)] && failure == None
      ensures |old(offsets)| > 1 ==> offsets == old(offsets) && failure == Some(UniqueViolation)
    {
      failure := None;
      if |offsets| == 1 {
        offsets := map[OffsetKey := ToInt32(offset)];
      } else if |offsets| > 1 {
        failure := Some(UniqueViolation);
      }
    }

    /** `henteOffset`: the stored offset, or -1 when there is no "henvendelse" row. */
    method HenteOffset() returns (result: int)
      ensures result == OffsetOf(offsets)
      ensures OffsetKey !in offsets ==> result == -1
    {
      result := -1;
      if OffsetKey in offsets {
        result := offsets[OffsetKey];
      }
    }

    /**
     * `addArchive` of the older service: the current writer's rules, on ArkivV3, whose
     * `integer` id sequence is used up after 2^31 - 1.
     */
    method AddArchive(requestBody: seq<ArkivModel>, f: Formats, clock: nat -> Instant)
      returns (r: Result<seq<ArkivResponse>, Failure>)
      requires Valid()
      modifies arkivV3
      ensures Valid()
      ensures old(arkivV3.nextId) <= arkivV3.nextId
      ensures var split, room := SplitToFit(requestBody), IdRoom(ArkivV3, old(arkivV3.nextId));
        if Completes(f, split, room) then
          && r == Ok(Responses(split, old(arkivV3.nextId), clock, f))
          && arkivV3.rows == old(arkivV3.rows) + InsertedRows(split, old(arkivV3.nextId), clock, f)
          && arkivV3.nextId == old(arkivV3.nextId) + |split|
        else
          && r == Err(StopFailure(f, split, room)) && arkivV3.rows == old(arkivV3.rows)
          && arkivV3.nextId == old(arkivV3.nextId) + Stored(f, split, room)
    {
      r := ArkivDb.AddArchive(arkivV3, requestBody, f, clock);
    }

    /** `henteArchive`: the reader's rules on ArkivV3, the id filter read as an Int. */
    method HenteArchive(henteRequest: HenteModel, f: Formats) returns (r: Result<seq<HenteResponse>, Failure>)
      ensures r == Lookup(arkivV3.rows, henteRequest, f, IntMin, IntMax)
    {
      r := Hente(arkivV3, henteRequest, f, IntMin, IntMax);
    }

    /**
     * `henteId`: every row with the id, shown in full whether confidential or not, in table
     * order and not sorted, with the number of confidential ones among them.
     */
    method HenteId(id: int, f: Formats) returns (result: seq<HenteResponse>, konfidentielltNr: nat)
      ensures result == MapToHente(RowsWithId(arkivV3.rows, id), f)
      ensures forall x :: x in result <==> exists row :: row in arkivV3.rows && row.id == id && x == ToHente(row, f)
      ensures konfidentielltNr == CountConfidential(RowsWithId(arkivV3.rows, id))
      ensures Valid() ==> |result| <= 1
    {
      var query: Query := AndWhere([], IdIs(id));
      assert query == [IdIs(id)];
      var rows := Select(arkivV3.rows, query);
      result := [];
      konfidentielltNr := 0;
      for i := 0 to |rows|
        invariant result == MapToHente(rows[..i], f)
        invariant konfidentielltNr == CountConfidential(rows[..i])
      {
        if rows[i].konfidentiellt {
          konfidentielltNr := konfidentielltNr + 1;
        }
        result := result + [ToHente(rows[i], f)];
        CountConfidentialAppend(rows[..i], rows[i]);
        assert rows[..i + 1] == rows[..i] + [rows[i]];
      }
      assert rows[..|rows|] == rows;
      RowsWithIdShown(arkivV3.rows, id, f);
    }
  }

  /**
   * The rows shown for an id are those with the id, each shown in full; in a table whose ids
   * increase there is at most one.
   */
  lemma RowsWithIdShown(rows: seq<Row>, id: int, f: Formats)
    ensures forall x :: x in MapToHente(RowsWithId(rows, id), f) <==>
      exists row :: row in rows && row.id == id && x == ToHente(row, f)
    ensures IdsIncreasing(rows) ==> |MapToHente(RowsWithId(rows, id), f)| <= 1
  {
    RowsWithIdMembers(rows, id);
    MapToHenteMembers(RowsWithId(rows, id), f);
    if IdsIncreasing(rows) {
      RowsWithIdAtMostOne(rows, id);
    }
  }

  /**
   * The `integer` id sequence keeps every ArkivV3 row's id within the Int range, so the reader,
   * which reads the id filter as an Int, finds a non-confidential row by its own id.
   */
  lemma ArkivV3RowFoundById(db: LegacyDb, i: nat, f: Formats)
    requires db.Valid() && i < |db.arkivV3.rows| && !db.arkivV3.rows[i].konfidentiellt
    ensures 1 <= db.arkivV3.rows[i].id <= IntMax
    ensures Matches(HenteModel(id := NatToDecimal(db.arkivV3.rows[i].id)), f, IntMin, IntMax, db.arkivV3.rows[i])
  {
    var row := db.arkivV3.rows[i];
    ParseNatToDecimal(row.id, IntMin, IntMax);
  }

  lemma {:induction false} CountConfidentialAppend(rows: seq<Row>, row: Row)
    ensures CountConfidential(rows + [row]) == CountConfidential(rows) + (if row.konfidentiellt then 1 else 0)
    decreases |rows|
  {
    if rows == [] {
      assert [] + [row] == [row];
    } else {
      CountConfidentialAppend(rows[1..], row);
      assert (rows + [row])[1..] == rows[1..] + [row];
    }
  }

  /** An offset in the Int range is read back as it was stored. */
  lemma OffsetRoundTrip(offset: int)
    requires IntMin <= offset <= IntMax
    ensures OffsetOf(map[OffsetKey := ToInt32(offset)]) == offset
  {
  }

  /**
   * An offset above the Int range is not read back: the first offset past 2^31 - 1 is stored
   * as -2^31, which is below every offset Kafka hands out.
   */
  lemma OffsetWrapsAbove32Bits()
    ensures OffsetOf(map[OffsetKey := ToInt32(IntMax + 1)]) == IntMin
  {
  }

  /** With an empty OffsetStorage table nothing is remembered: the offset read is -1. */
  lemma EmptyStorageForgets()
    ensures OffsetOf(map[]) == -1
  {
  }
}

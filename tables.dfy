/**
 * The `Arkiv` table: its row shape, its column widths and the auto-incremented id, and the
 * three table generations that share this layout (ArkivV3 and ArkivV4 hold older records and
 * are frozen; new records go to Arkiv).
 */
module Tables {
  import opened Wrappers
  import opened KotlinText

  /** Width of the `dokumentasjon` varchar column; longer texts are split before insert. */
  const DokumentasjonLength: nat := 131072

  const OpprettetAvWidth: nat := 50
  const KildeWidth: nat := 43
  const DokumentasjonIdWidth: nat := 20
  const AktoeridWidth: nat := 14
  const FnrWidth: nat := 13
  const OrgnrWidth: nat := 13
  const TemaWidth: nat := 50

  /** A point in time (a Joda DateTime), as milliseconds since the epoch. */
  datatype Instant = Instant(millis: int)

  /** One row of the Arkiv table (and of ArkivV3 and ArkivV4, which have the same columns). */
  datatype Row = Row(
    id: int,
    dato: Instant,
    opprettetAv: string,
    kilde: string,
    dokumentasjonId: string,
    dokumentasjon: KString,
    dokumentdato: Instant,
    aktoerid: string,
    fnr: string,
    orgnr: string,
    tema: string,
    konfidentiellt: bool)

  /**
   * Every varchar value is within the width of its column. The text column is bounded in
   * UTF-16 code units, never fewer than its characters, so a text within it fits the column.
   */
  predicate FitsColumns(r: Row) {
    && |r.opprettetAv| <= OpprettetAvWidth
    && |r.kilde| <= KildeWidth
    && |r.dokumentasjonId| <= DokumentasjonIdWidth
    && |r.dokumentasjon| <= DokumentasjonLength
    && |r.aktoerid| <= AktoeridWidth
    && |r.fnr| <= FnrWidth
    && |r.orgnr| <= OrgnrWidth
    && |r.tema| <= TemaWidth
  }

  datatype Generation = ArkivV3 | ArkivV4 | Arkiv

  /**
   * The largest id a generation's sequence hands out. ArkivV3 is written by the older service,
   * which declares its id as an `integer` serial (2^31 - 1 at most); ArkivV4 and Arkiv have
   * `long` ids (2^63 - 1 at most).
   */
  function IdMax(g: Generation): int {
    if g == ArkivV3 then 0x7fff_ffff else 0x7fff_ffff_ffff_ffff
  }

  /** How many more ids a sequence whose next value is `nextId` can hand out. */
  function IdRoom(g: Generation, nextId: int): (n: nat)
    ensures nextId <= IdMax(g) + 1 ==> nextId + n == IdMax(g) + 1
  {
    if nextId <= IdMax(g) + 1 then IdMax(g) + 1 - nextId else 0
  }

  /** Ids strictly increase in insertion order, so no id occurs twice. */
  ghost predicate IdsIncreasing(rows: seq<Row>) {
    forall i, j :: 0 <= i < j < |rows| ==> rows[i].id < rows[j].id
  }

  /**
   * One table generation: its rows in insertion order and the next value of its id sequence,
   * which is one past the maximum once the sequence is used up.
   */
  class ArkivTable {
    const generation: Generation
    var rows: seq<Row>
    var nextId: int

    ghost predicate Valid()
      reads this
    {
      && 1 <= nextId <= IdMax(generation) + 1
      && IdsIncreasing(rows)
      && forall i :: 0 <= i < |rows| ==> 1 <= rows[i].id < nextId
    }

    constructor (generation: Generation)
      ensures Valid() && this.generation == generation
      ensures rows == [] && nextId == 1
    {
      this.generation := generation;
      rows := [];
      nextId := 1;
    }

    /**
     * INSERT: the store assigns the id, which is larger than every id it handed out before.
     * Once the sequence has handed out its maximum, `nextval` fails and nothing changes.
     */
    method Insert(row: Row) returns (id: Option<int>)
      requires Valid()
      modifies this
      ensures Valid()
      ensures old(nextId) <= IdMax(generation) ==>
        && id == Some(old(nextId)) && nextId == old(nextId) + 1
        && rows == old(rows) + [row.(id := old(nextId))]
      ensures old(nextId) > IdMax(generation) ==> id == None && rows == old(rows) && nextId == old(nextId)
      ensures forall i :: 0 <= i < |old(rows)| ==> old(rows)[i].id < old(nextId)
    {
      if nextId > IdMax(generation) {
        return None;
      }
      id := Some(nextId);
      rows := rows + [row.(id := nextId)];
      nextId := nextId + 1;
    }

    /**
     * ROLLBACK of the enclosing transaction: the rows inserted since `snapshot` disappear, but
     * the id sequence is not rewound (a database sequence is not transactional).
     */
    method Rollback(snapshot: seq<Row>)
      requires Valid() && snapshot <= rows
      modifies this
      ensures Valid()
      ensures rows == snapshot && nextId == old(nextId)
    {
      rows := snapshot;
    }
  }

  /** The three generations side by side. */
  class ArchiveStore {
    const arkivV3: ArkivTable
    const arkivV4: ArkivTable
    const arkiv: ArkivTable

    ghost predicate Valid()
      reads this, arkivV3, arkivV4, arkiv
    {
      && arkivV3 != arkivV4 && arkivV3 != arkiv && arkivV4 != arkiv
      && arkivV3.generation == ArkivV3 && arkivV4.generation == ArkivV4 && arkiv.generation == Arkiv
      && arkivV3.Valid() && arkivV4.Valid() && arkiv.Valid()
    }

    constructor (arkivV3: ArkivTable, arkivV4: ArkivTable, arkiv: ArkivTable)
      requires arkivV3 != arkivV4 && arkivV3 != arkiv && arkivV4 != arkiv
      requires arkivV3.generation == ArkivV3 && arkivV4.generation == ArkivV4
      requires arkiv.generation == Arkiv
      requires arkivV3.Valid() && arkivV4.Valid() && arkiv.Valid()
      ensures Valid()
      ensures this.arkivV3 == arkivV3 && this.arkivV4 == arkivV4 && this.arkiv == arkiv
    {
      this.arkivV3 := arkivV3;
      this.arkivV4 := arkivV4;
      this.arkiv := arkiv;
    }
  }
}

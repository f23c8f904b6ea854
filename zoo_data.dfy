/** The entities of the zoo: catalog entries, residents, enclosures, the
    reports and errors the allocator returns, and the two fixed tables the
    `RecintosZoo` constructor installs. */
module ZooData {

  datatype Option<T> = None | Some(value: T)

  /** An entry of the species catalog (`animais`): the space one individual
      takes (`tamanho`), the biomes it accepts (`biomas`) and whether it is a
      carnivore (`carnivoro`). */
  datatype Species = Species(size: int, biomes: seq<string>, carnivore: bool)
  {
    /** The `especie` property of a catalog entry. Entries carry only the
        three fields above, so reading it yields `undefined`, here `None`. */
    function NameProperty(): Option<string> {
      None
    }
  }

  /** One population already living in an enclosure (`especie`, `quantidade`). */
  datatype Resident = Resident(species: string, count: int)

  /** An enclosure (`recinto`): its number, biome label, total size and residents. */
  datatype Enclosure = Enclosure(number: int, biome: string, capacity: int, residents: seq<Resident>)

  /** One viable enclosure as reported: "Recinto <number> (espaço livre: <free> total: <total>)". */
  datatype Report = Report(number: int, free: int, total: int)

  datatype Error = InvalidAnimal | InvalidQuantity | NoViableEnclosure
  {
    /** The `erro` text the source returns for each kind. */
    function Message(): string {
      match this
      case InvalidAnimal => "Animal inválido"
      case InvalidQuantity => "Quantidade inválida"
      case NoViableEnclosure => "Não há recinto viável"
    }
  }

  /** The three error texts tell the errors apart, so a caller that reads only
      `erro` learns which check failed. */
  lemma MessagesIdentifyErrors(a: Error, b: Error)
    ensures a.Message() == b.Message() <==> a == b
  {
  }

  /** The `{ erro, recintosViaveis }` pair: an error with no list, or the list with no error. */
  datatype Analysis = Failure(error: Error) | Success(viable: seq<Report>)

  /** Every resident's species has a catalog entry (the inner loop looks each one up). */
  ghost predicate Catalogued(catalog: map<string, Species>, rs: seq<Resident>) {
    forall k :: 0 <= k < |rs| ==> rs[k].species in catalog
  }

  ghost predicate ResidentsCatalogued(catalog: map<string, Species>, es: seq<Enclosure>) {
    forall i :: 0 <= i < |es| ==> Catalogued(catalog, es[i].residents)
  }

  ghost predicate DistinctEnclosureNumbers(es: seq<Enclosure>) {
    forall p, q :: 0 <= p < q < |es| ==> es[p].number != es[q].number
  }

  ghost predicate DistinctNumbers(rs: seq<Report>) {
    forall p, q :: 0 <= p < q < |rs| ==> rs[p].number != rs[q].number
  }

  /** What the tables are assumed to satisfy: catalogued residents, unique
      enclosure numbers, positive unit sizes and resident counts of at least one. */
  ghost predicate WellFormedTables(catalog: map<string, Species>, es: seq<Enclosure>) {
    && ResidentsCatalogued(catalog, es)
    && DistinctEnclosureNumbers(es)
    && (forall n :: n in catalog ==> catalog[n].size > 0)
    && (forall i, k :: 0 <= i < |es| && 0 <= k < |es[i].residents| ==> es[i].residents[k].count >= 1)
  }

  /** The species catalog installed by the constructor. */
  const ZooCatalog: map<string, Species> := map[
    "leao" := Species(3, ["savana"], true),
    "leopardo" := Species(2, ["savana"], true),
    "crocodilo" := Species(3, ["rio"], true),
    "macaco" := Species(1, ["savana", "floresta"], false),
    "gazela" := Species(2, ["savana"], false),
    "hipopotamo" := Species(4, ["savana", "rio"], false)
  ]

  /** The enclosure table installed by the constructor. */
  const ZooEnclosures: seq<Enclosure> := [
    Enclosure(1, "savana", 10, [Resident("macaco", 3)]),
    Enclosure(2, "floresta", 5, []),
    Enclosure(3, "savana e rio", 7, [Resident("gazela", 1)]),
    Enclosure(4, "rio", 8, []),
    Enclosure(5, "savana", 9, [Resident("leao", 1)])
  ]

  lemma ZooTablesWellFormed()
    ensures WellFormedTables(ZooCatalog, ZooEnclosures)
  {
  }
}

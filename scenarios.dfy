/** Concrete requests against the tables the constructor installs. */
module ZooScenarios {
  import opened Text
  import opened ZooData
  import opened ZooRules
  import opened ReportOrder
  import opened Zoo

  /** A five-enclosure table contributes its enclosures' reports in order. */
  lemma CandidatesOfFive(catalog: map<string, Species>, es: seq<Enclosure>, name: string, quantity: int)
    requires name in catalog && ResidentsCatalogued(catalog, es) && |es| == 5
    ensures Candidates(catalog, es, name, quantity)
      == Pick(catalog, es[0], name, quantity) + Pick(catalog, es[1], name, quantity)
       + Pick(catalog, es[2], name, quantity) + Pick(catalog, es[3], name, quantity)
       + Pick(catalog, es[4], name, quantity)
  {
    forall k | 0 <= k < 5
      ensures Candidates(catalog, es[..k + 1], name, quantity)
        == Candidates(catalog, es[..k], name, quantity) + Pick(catalog, es[k], name, quantity)
    {
      assert es[..k + 1][..k] == es[..k];
    }
    assert es[..0] == [] && es[..5] == es;
  }

  /** An empty enclosure takes the batch when the biome fits and the batch fits its total. */
  lemma EmptyEnclosure(catalog: map<string, Species>, e: Enclosure, name: string, quantity: int)
    requires name in catalog && e.residents == []
    ensures var free := e.capacity - quantity * catalog[name].size;
      Pick(catalog, e, name, quantity)
      == if BiomeFits(catalog[name].biomes, e.biome) && free >= 0 then [Report(e.number, free, e.capacity)] else []
  {
  }

  /** An enclosure with one resident population, with every rule spelled out for it. */
  lemma OneResident(catalog: map<string, Species>, e: Enclosure, name: string, quantity: int)
    requires name in catalog && |e.residents| == 1 && e.residents[0].species in catalog
    ensures var r0 := e.residents[0];
      var free := e.capacity - r0.count * catalog[r0.species].size
                  - (if r0.species != name then 1 else 0) - quantity * catalog[name].size;
      Pick(catalog, e, name, quantity)
      == if && !catalog[r0.species].carnivore
            && !(catalog[name].carnivore && r0.species != name)
            && !(name == Monkey && r0.species == Monkey && r0.count == 1)
            && BiomeFits(catalog[name].biomes, e.biome)
            && free >= 0
         then [Report(e.number, free, e.capacity)] else []
  {
    var r0 := e.residents[0];
    assert e.residents[..0] == [];
    assert Occupied(catalog, e.residents) == r0.count * catalog[r0.species].size;
    assert CarnivorePresent(catalog, e.residents) <==> catalog[r0.species].carnivore;
    assert OtherSpeciesPresent(e.residents, name) <==> r0.species != name;
    assert LoneMonkeyPresent(e.residents) <==> r0.species == Monkey && r0.count == 1;
  }

  // Two monkeys: enclosures 1, 2 and 3, the third paying the extra unit for the gazelle.

  lemma MonkeyPairAt1()
    ensures Pick(ZooCatalog, ZooEnclosures[0], "macaco", 2) == [Report(1, 5, 10)]
  {
    assert OccursAt("savana", "savana", 0);
    assert Occurs(ZooCatalog["macaco"].biomes[0], "savana");
    OneResident(ZooCatalog, ZooEnclosures[0], "macaco", 2);
  }

  lemma MonkeyPairAt2()
    ensures Pick(ZooCatalog, ZooEnclosures[1], "macaco", 2) == [Report(2, 3, 5)]
  {
    assert OccursAt("floresta", "floresta", 0);
    assert Occurs(ZooCatalog["macaco"].biomes[1], "floresta");
    EmptyEnclosure(ZooCatalog, ZooEnclosures[1], "macaco", 2);
  }

  lemma MonkeyPairAt3()
    ensures Pick(ZooCatalog, ZooEnclosures[2], "macaco", 2) == [Report(3, 2, 7)]
  {
    assert OccursAt("savana", "savana e rio", 0);
    assert Occurs(ZooCatalog["macaco"].biomes[0], "savana e rio");
    OneResident(ZooCatalog, ZooEnclosures[2], "macaco", 2);
  }

  lemma MonkeyPairAt4()
    ensures Pick(ZooCatalog, ZooEnclosures[3], "macaco", 2) == []
  {
    NotOccurs("savana", "rio");
    NotOccurs("floresta", "rio");
    EmptyEnclosure(ZooCatalog, ZooEnclosures[3], "macaco", 2);
  }

  lemma MonkeyPairAt5()
    ensures Pick(ZooCatalog, ZooEnclosures[4], "macaco", 2) == []
  {
    OneResident(ZooCatalog, ZooEnclosures[4], "macaco", 2);
  }

  lemma MonkeyPairCandidates()
    ensures Candidates(ZooCatalog, ZooEnclosures, "macaco", 2)
      == [Report(1, 5, 10), Report(2, 3, 5), Report(3, 2, 7)]
  {
    MonkeyPairAt1();
    MonkeyPairAt2();
    MonkeyPairAt3();
    MonkeyPairAt4();
    MonkeyPairAt5();
    ZooTablesWellFormed();
    CandidatesOfFive(ZooCatalog, ZooEnclosures, "macaco", 2);
  }

  // One crocodile: only the empty river enclosure 4.

  lemma CrocodileAt1()
    ensures Pick(ZooCatalog, ZooEnclosures[0], "crocodilo", 1) == []
  {
    OneResident(ZooCatalog, ZooEnclosures[0], "crocodilo", 1);
  }

  lemma CrocodileAt2()
    ensures Pick(ZooCatalog, ZooEnclosures[1], "crocodilo", 1) == []
  {
    NotOccurs("rio", "floresta");
    EmptyEnclosure(ZooCatalog, ZooEnclosures[1], "crocodilo", 1);
  }

  lemma CrocodileAt3()
    ensures Pick(ZooCatalog, ZooEnclosures[2], "crocodilo", 1) == []
  {
    OneResident(ZooCatalog, ZooEnclosures[2], "crocodilo", 1);
  }

  lemma CrocodileAt4()
    ensures Pick(ZooCatalog, ZooEnclosures[3], "crocodilo", 1) == [Report(4, 5, 8)]
  {
    assert OccursAt("rio", "rio", 0);
    assert Occurs(ZooCatalog["crocodilo"].biomes[0], "rio");
    EmptyEnclosure(ZooCatalog, ZooEnclosures[3], "crocodilo", 1);
  }

  lemma CrocodileAt5()
    ensures Pick(ZooCatalog, ZooEnclosures[4], "crocodilo", 1) == []
  {
    OneResident(ZooCatalog, ZooEnclosures[4], "crocodilo", 1);
  }

  lemma CrocodileCandidates()
    ensures Candidates(ZooCatalog, ZooEnclosures, "crocodilo", 1) == [Report(4, 5, 8)]
  {
    CrocodileAt1();
    CrocodileAt2();
    CrocodileAt3();
    CrocodileAt4();
    CrocodileAt5();
    ZooTablesWellFormed();
    CandidatesOfFive(ZooCatalog, ZooEnclosures, "crocodilo", 1);
  }

  // Ten monkeys: no enclosure has room.

  lemma MonkeyTenAt(i: int)
    requires 0 <= i < 5
    ensures Pick(ZooCatalog, ZooEnclosures[i], "macaco", 10) == []
  {
    if ZooEnclosures[i].residents == [] {
      EmptyEnclosure(ZooCatalog, ZooEnclosures[i], "macaco", 10);
    } else {
      OneResident(ZooCatalog, ZooEnclosures[i], "macaco", 10);
    }
  }

  lemma MonkeyTenCandidates()
    ensures Candidates(ZooCatalog, ZooEnclosures, "macaco", 10) == []
  {
    MonkeyTenAt(0);
    MonkeyTenAt(1);
    MonkeyTenAt(2);
    MonkeyTenAt(3);
    MonkeyTenAt(4);
    ZooTablesWellFormed();
    CandidatesOfFive(ZooCatalog, ZooEnclosures, "macaco", 10);
  }

  // Two hundred gazelles: no enclosure has room.

  lemma GazelleHerdAt(i: int)
    requires 0 <= i < 5
    ensures Pick(ZooCatalog, ZooEnclosures[i], "gazela", 200) == []
  {
    if ZooEnclosures[i].residents == [] {
      EmptyEnclosure(ZooCatalog, ZooEnclosures[i], "gazela", 200);
    } else {
      OneResident(ZooCatalog, ZooEnclosures[i], "gazela", 200);
    }
  }

  lemma GazelleHerdCandidates()
    ensures Candidates(ZooCatalog, ZooEnclosures, "gazela", 200) == []
  {
    GazelleHerdAt(0);
    GazelleHerdAt(1);
    GazelleHerdAt(2);
    GazelleHerdAt(3);
    GazelleHerdAt(4);
    ZooTablesWellFormed();
    CandidatesOfFive(ZooCatalog, ZooEnclosures, "gazela", 200);
  }

  // One lion: enclosure 5 already holds a lion, and the carnivore guard
  // rejects it all the same.

  lemma LionAt(i: int)
    requires 0 <= i < 5
    ensures Pick(ZooCatalog, ZooEnclosures[i], "leao", 1) == []
  {
    if ZooEnclosures[i].residents == [] {
      NotOccurs("savana", "floresta");
      NotOccurs("savana", "rio");
      EmptyEnclosure(ZooCatalog, ZooEnclosures[i], "leao", 1);
    } else {
      OneResident(ZooCatalog, ZooEnclosures[i], "leao", 1);
    }
  }

  lemma LionCandidates()
    ensures Candidates(ZooCatalog, ZooEnclosures, "leao", 1) == []
  {
    LionAt(0);
    LionAt(1);
    LionAt(2);
    LionAt(3);
    LionAt(4);
    ZooTablesWellFormed();
    CandidatesOfFive(ZooCatalog, ZooEnclosures, "leao", 1);
  }

  // One hippopotamus: enclosures 1, 3 and 4, the first two with the extra unit.

  lemma HippoAt1()
    ensures Pick(ZooCatalog, ZooEnclosures[0], "hipopotamo", 1) == [Report(1, 2, 10)]
  {
    assert OccursAt("savana", "savana", 0);
    assert Occurs(ZooCatalog["hipopotamo"].biomes[0], "savana");
    OneResident(ZooCatalog, ZooEnclosures[0], "hipopotamo", 1);
  }

  lemma HippoAt2()
    ensures Pick(ZooCatalog, ZooEnclosures[1], "hipopotamo", 1) == []
  {
    NotOccurs("savana", "floresta");
    NotOccurs("rio", "floresta");
    EmptyEnclosure(ZooCatalog, ZooEnclosures[1], "hipopotamo", 1);
  }

  lemma HippoAt3()
    ensures Pick(ZooCatalog, ZooEnclosures[2], "hipopotamo", 1) == [Report(3, 0, 7)]
  {
    assert OccursAt("savana", "savana e rio", 0);
    assert Occurs(ZooCatalog["hipopotamo"].biomes[0], "savana e rio");
    OneResident(ZooCatalog, ZooEnclosures[2], "hipopotamo", 1);
  }

  lemma HippoAt4()
    ensures Pick(ZooCatalog, ZooEnclosures[3], "hipopotamo", 1) == [Report(4, 4, 8)]
  {
    assert OccursAt("rio", "rio", 0);
    assert Occurs(ZooCatalog["hipopotamo"].biomes[1], "rio");
    EmptyEnclosure(ZooCatalog, ZooEnclosures[3], "hipopotamo", 1);
  }

  lemma HippoAt5()
    ensures Pick(ZooCatalog, ZooEnclosures[4], "hipopotamo", 1) == []
  {
    OneResident(ZooCatalog, ZooEnclosures[4], "hipopotamo", 1);
  }

  lemma HippoCandidates()
    ensures Candidates(ZooCatalog, ZooEnclosures, "hipopotamo", 1)
      == [Report(1, 2, 10), Report(3, 0, 7), Report(4, 4, 8)]
  {
    HippoAt1();
    HippoAt2();
    HippoAt3();
    HippoAt4();
    HippoAt5();
    ZooTablesWellFormed();
    CandidatesOfFive(ZooCatalog, ZooEnclosures, "hipopotamo", 1);
  }

  // The same requests made through the class.

  /** Every catalog key is plain lower case, so a request spelled as the key
      is found as written. */
  lemma CatalogKeysFoundAsWritten()
    ensures forall n :: n in ZooCatalog ==> Lower(n) == n
  {
    forall n | n in ZooCatalog
      ensures Lower(n) == n
    {
      LowerKeepsLowercase(n);
    }
  }

  /** The names the scenarios use, as the allocator sees them. */
  lemma ScenarioNames()
    ensures Lower("macaco") == "macaco" && Lower("MACACO") == "macaco"
    ensures Lower("crocodilo") == "crocodilo" && Lower("hipopotamo") == "hipopotamo"
    ensures Lower("leao") == "leao" && Lower("unicornio") == "unicornio"
    ensures Lower("gazela") == "gazela"
    ensures "unicornio" !in ZooCatalog
  {
    CatalogKeysFoundAsWritten();
    assert "macaco" in ZooCatalog && "crocodilo" in ZooCatalog && "hipopotamo" in ZooCatalog;
    assert "leao" in ZooCatalog && "gazela" in ZooCatalog;
    LowerKeepsLowercase("unicornio");
  }

  /** The expected lists of the successful scenarios are in strictly ascending order. */
  lemma ExpectedAscending()
    ensures StrictlyAscending([Report(1, 5, 10), Report(2, 3, 5), Report(3, 2, 7)])
    ensures StrictlyAscending([Report(4, 5, 8)])
    ensures StrictlyAscending([Report(1, 2, 10), Report(3, 0, 7), Report(4, 4, 8)])
  {
  }

  /** What `AnalisaRecintos` promises pins its answer down once the candidates
      are known: with distinct enclosure numbers, the successful result is the
      candidate list itself whenever that list is strictly ascending. */
  lemma ResultDetermined(r: Analysis, catalog: map<string, Species>, es: seq<Enclosure>,
                         name: string, quantity: int, expected: seq<Report>)
    requires name in catalog && ResidentsCatalogued(catalog, es) && DistinctEnclosureNumbers(es)
    requires r.Success? <==> Candidates(catalog, es, name, quantity) != []
    requires r.Success? ==> multiset(r.viable) == multiset(Candidates(catalog, es, name, quantity))
    requires r.Success? && DistinctEnclosureNumbers(es) ==> StrictlyAscending(r.viable)
    requires Candidates(catalog, es, name, quantity) == expected && expected != []
    requires StrictlyAscending(expected)
    ensures r == Success(expected)
  {
    StrictlyAscendingUnique(r.viable, expected);
  }

  /** `analisaRecintos('macaco', 2)`: enclosures 1, 2 and 3, in that order. */
  method MonkeyPairScenario() returns (r: Analysis)
    ensures r == Success([Report(1, 5, 10), Report(2, 3, 5), Report(3, 2, 7)])
  {
    var zoo := new RecintosZoo();
    ScenarioNames();
    MonkeyPairCandidates();
    ExpectedAscending();
    r := zoo.AnalisaRecintos("macaco", 2);
    ResultDetermined(r, zoo.catalog, zoo.enclosures, "macaco", 2, [Report(1, 5, 10), Report(2, 3, 5), Report(3, 2, 7)]);
  }

  /** The species name is lower-cased first: `analisaRecintos('MACACO', 2)` answers as for 'macaco'. */
  method UpperCaseMonkeyScenario() returns (r: Analysis)
    ensures r == Success([Report(1, 5, 10), Report(2, 3, 5), Report(3, 2, 7)])
  {
    var zoo := new RecintosZoo();
    ScenarioNames();
    MonkeyPairCandidates();
    ExpectedAscending();
    r := zoo.AnalisaRecintos("MACACO", 2);
    ResultDetermined(r, zoo.catalog, zoo.enclosures, "macaco", 2, [Report(1, 5, 10), Report(2, 3, 5), Report(3, 2, 7)]);
  }

  /** `analisaRecintos('crocodilo', 1)`: enclosure 4 only. */
  method CrocodileScenario() returns (r: Analysis)
    ensures r == Success([Report(4, 5, 8)])
  {
    var zoo := new RecintosZoo();
    ScenarioNames();
    CrocodileCandidates();
    ExpectedAscending();
    r := zoo.AnalisaRecintos("crocodilo", 1);
    ResultDetermined(r, zoo.catalog, zoo.enclosures, "crocodilo", 1, [Report(4, 5, 8)]);
  }

  /** `analisaRecintos('hipopotamo', 1)`: enclosures 1, 3 and 4. */
  method HippoScenario() returns (r: Analysis)
    ensures r == Success([Report(1, 2, 10), Report(3, 0, 7), Report(4, 4, 8)])
  {
    var zoo := new RecintosZoo();
    ScenarioNames();
    HippoCandidates();
    ExpectedAscending();
    r := zoo.AnalisaRecintos("hipopotamo", 1);
    ResultDetermined(r, zoo.catalog, zoo.enclosures, "hipopotamo", 1, [Report(1, 2, 10), Report(3, 0, 7), Report(4, 4, 8)]);
  }

  /** `analisaRecintos('macaco', 10)`: no enclosure has room. */
  method MonkeyTenScenario() returns (r: Analysis)
    ensures r == Failure(NoViableEnclosure)
  {
    var zoo := new RecintosZoo();
    ScenarioNames();
    MonkeyTenCandidates();
    r := zoo.AnalisaRecintos("macaco", 10);
  }

  /** `analisaRecintos('leao', 1)`: enclosure 5, which holds a lion, is rejected too. */
  method LionScenario() returns (r: Analysis)
    ensures r == Failure(NoViableEnclosure)
  {
    var zoo := new RecintosZoo();
    ScenarioNames();
    LionCandidates();
    r := zoo.AnalisaRecintos("leao", 1);
  }

  /** `analisaRecintos('gazela', 200)`: no enclosure has room. */
  method GazelleHerdScenario() returns (r: Analysis)
    ensures r == Failure(NoViableEnclosure)
  {
    var zoo := new RecintosZoo();
    ScenarioNames();
    GazelleHerdCandidates();
    r := zoo.AnalisaRecintos("gazela", 200);
  }

  /** An unknown species is reported before the quantity is looked at. */
  method UnknownSpeciesScenario() returns (r: Analysis)
    ensures r == Failure(InvalidAnimal)
  {
    var zoo := new RecintosZoo();
    ScenarioNames();
    r := zoo.AnalisaRecintos("unicornio", 0);
  }

  /** A known species with quantity zero. */
  method ZeroQuantityScenario() returns (r: Analysis)
    ensures r == Failure(InvalidQuantity)
  {
    var zoo := new RecintosZoo();
    ScenarioNames();
    r := zoo.AnalisaRecintos("leao", 0);
  }
}

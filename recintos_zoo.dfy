/** The `RecintosZoo` class: the two tables it holds and `analisaRecintos`,
    which validates a request, walks every enclosure and its residents, keeps
    the enclosures where the batch fits and sorts them by number. */
module Zoo {
  import opened Text
  import opened ZooData
  import opened ZooRules
  import opened ReportOrder

  /** The carnivore guard's right-hand side: the first resident's species is
      looked up in the catalog (an empty enclosure looks up the key
      "undefined") and the entry's `especie` property is read. No entry has
      that property, so the value is always absent. */
  function FirstResidentNameProperty(catalog: map<string, Species>, e: Enclosure): (r: Option<string>)
    ensures r == None
  {
    var key := if |e.residents| > 0 then e.residents[0].species else "undefined";
    if key in catalog then catalog[key].NameProperty() else None
  }

  /** The biome test: some biome the species accepts is a substring of the
      enclosure's biome label. */
  function SomeBiomeIncluded(biome: string, biomes: seq<string>): (r: bool)
    ensures r <==> BiomeFits(biomes, biome)
  {
    exists k :: 0 <= k < |biomes| && Includes(biome, biomes[k])
  }

  /** Exchanges two entries of the array and leaves the rest alone. */
  method Swap(a: array<Report>, p: int, q: int)
    requires 0 <= p < a.Length && 0 <= q < a.Length
    modifies a
    ensures a[..] == old(a[..])[p := old(a[q])][q := old(a[p])]
    ensures multiset(a[..]) == old(multiset(a[..]))
  {
    a[p], a[q] := a[q], a[p];
  }

  /** The sort of the viable list by enclosure number, done in place. */
  method SortByNumber(a: array<Report>)
    modifies a
    ensures SortedByNumber(a[..])
    ensures multiset(a[..]) == old(multiset(a[..]))
  {
    var i := 0;
    while i < a.Length
      invariant 0 <= i <= a.Length
      invariant forall p, q :: 0 <= p < q < i ==> a[p].number <= a[q].number
      invariant multiset(a[..]) == old(multiset(a[..]))
    {
      var j := i;
      while j > 0 && a[j - 1].number > a[j].number
        invariant 0 <= j <= i
        invariant forall p, q :: 0 <= p < q <= i && p != j && q != j ==> a[p].number <= a[q].number
        invariant forall q :: j < q <= i ==> a[j].number <= a[q].number
        invariant multiset(a[..]) == old(multiset(a[..]))
      {
        Swap(a, j - 1, j);
        j := j - 1;
      }
      i := i + 1;
    }
  }

  class RecintosZoo {
    var enclosures: seq<Enclosure>
    var catalog: map<string, Species>

    ghost predicate Valid()
      reads this
    {
      WellFormedTables(catalog, enclosures)
    }

    constructor ()
      ensures enclosures == ZooEnclosures && catalog == ZooCatalog
      ensures Valid()
    {
      enclosures := ZooEnclosures;
      catalog := ZooCatalog;
      ZooTablesWellFormed();
    }

    /** The inner loop over one enclosure's residents: the space they take and
        whether a carnivore, a species other than `name`, or a monkey entry
        of count one is among them. */
    method ScanResidents(residents: seq<Resident>, name: string)
      returns (occupied: int, carnivorePresent: bool, otherPresent: bool, loneMonkey: bool)
      requires Catalogued(catalog, residents)
      ensures occupied == Occupied(catalog, residents)
      ensures carnivorePresent == CarnivorePresent(catalog, residents)
      ensures otherPresent == OtherSpeciesPresent(residents, name)
      ensures loneMonkey == LoneMonkeyPresent(residents)
    {
      occupied, carnivorePresent, otherPresent, loneMonkey := 0, false, false, false;
      for j := 0 to |residents|
        invariant occupied == Occupied(catalog, residents[..j])
        invariant carnivorePresent == CarnivorePresent(catalog, residents[..j])
        invariant otherPresent == OtherSpeciesPresent(residents[..j], name)
        invariant loneMonkey == LoneMonkeyPresent(residents[..j])
      {
        var resident := residents[j];
        var residentInfo := catalog[resident.species];
        assert residents[..j + 1][..j] == residents[..j];
        occupied := occupied + resident.count * residentInfo.size;
        if residentInfo.carnivore {
          carnivorePresent := true;
        }
        if resident.species != name {
          otherPresent := true;
        }
        if resident.species == Monkey && resident.count == 1 {
          loneMonkey := true;
        }
      }
      assert residents[..|residents|] == residents;
    }

    /** One pass of the per-enclosure loop: the rules are tried in the
        source's order and the first that fails skips the enclosure; an
        enclosure that passes them all is reported with the space left. */
    method AssessEnclosure(e: Enclosure, name: string, quantity: int) returns (placed: Option<Report>)
      requires name in catalog && Catalogued(catalog, e.residents)
      ensures placed.Some? <==> Admits(catalog, e, name, quantity)
      ensures placed.Some? ==> placed.value == Placement(catalog, e, name, quantity)
    {
      var info := catalog[name];
      var need := quantity * info.size;
      var occupied, carnivorePresent, otherPresent, loneMonkey := ScanResidents(e.residents, name);
      var available := e.capacity - occupied;
      if carnivorePresent && Some(name) != FirstResidentNameProperty(catalog, e) {
        return None;
      }
      if info.carnivore && otherPresent {
        return None;
      }
      if loneMonkey && name == Monkey {
        return None;
      }
      if !SomeBiomeIncluded(e.biome, info.biomes) {
        return None;
      }
      var extra := if otherPresent then 1 else 0;
      if available - extra >= need {
        return Some(Report(e.number, available - extra - need, e.capacity));
      }
      return None;
    }

    /** Which enclosures can take `quantity` animals of `species`. An unknown
        species wins over a bad quantity; otherwise the viable enclosures are
        exactly the candidates, sorted by number, or there is none. The method
        changes neither table: it has no frame to change them in. */
    method AnalisaRecintos(species: string, quantity: int) returns (r: Analysis)
      requires ResidentsCatalogued(catalog, enclosures)
      ensures r == Failure(InvalidAnimal) <==> Lower(species) !in catalog
      ensures r == Failure(InvalidQuantity) <==> Lower(species) in catalog && quantity <= 0
      ensures r.Success? <==>
        Lower(species) in catalog && quantity > 0 && Candidates(catalog, enclosures, Lower(species), quantity) != []
      ensures r == Failure(NoViableEnclosure) <==>
        Lower(species) in catalog && quantity > 0 && Candidates(catalog, enclosures, Lower(species), quantity) == []
      ensures r.Success? ==>
        && Lower(species) in catalog && quantity > 0 && r.viable != []
        && SortedByNumber(r.viable)
        && multiset(r.viable) == multiset(Candidates(catalog, enclosures, Lower(species), quantity))
      ensures r.Success? && DistinctEnclosureNumbers(enclosures) ==> StrictlyAscending(r.viable)
    {
      var name := Lower(species);
      if name !in catalog {
        return Failure(InvalidAnimal);
      }
      if quantity <= 0 {
        return Failure(InvalidQuantity);
      }
      var viable: seq<Report> := [];
      for i := 0 to |enclosures|
        invariant viable == Candidates(catalog, enclosures[..i], name, quantity)
      {
        assert enclosures[..i + 1][..i] == enclosures[..i];
        var placed := AssessEnclosure(enclosures[i], name, quantity);
        if placed.Some? {
          viable := viable + [placed.value];
        }
      }
      assert enclosures[..|enclosures|] == enclosures;
      if |viable| == 0 {
        return Failure(NoViableEnclosure);
      }
      var a := new Report[|viable|](k requires 0 <= k < |viable| => viable[k]);
      assert a[..] == viable;
      SortByNumber(a);
      r := Success(a[..]);
      if DistinctEnclosureNumbers(enclosures) {
        CandidatesDistinct(catalog, enclosures, name, quantity);
        DistinctNumbersPermutation(r.viable, viable);
      }
    }
  }
}

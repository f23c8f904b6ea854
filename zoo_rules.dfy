/** What `analisaRecintos` decides for one enclosure and for the whole table,
    stated declaratively: the space the residents take, the three flags the
    inner loop raises, the rules that reject an enclosure and the report kept
    for one that passes. */
module ZooRules {
  import opened Text
  import opened ZooData

  /** The species whose lone individual blocks a monkey request. */
  const Monkey: string := "macaco"

  /** Space the residents take: the sum of count times unit size. */
  ghost function Occupied(catalog: map<string, Species>, rs: seq<Resident>): int
    requires Catalogued(catalog, rs)
    decreases |rs|
  {
    if rs == [] then 0
    else Occupied(catalog, rs[..|rs| - 1]) + rs[|rs| - 1].count * catalog[rs[|rs| - 1].species].size
  }

  ghost predicate CarnivorePresent(catalog: map<string, Species>, rs: seq<Resident>)
    requires Catalogued(catalog, rs)
  {
    exists k :: 0 <= k < |rs| && catalog[rs[k].species].carnivore
  }

  ghost predicate OtherSpeciesPresent(rs: seq<Resident>, name: string) {
    exists k :: 0 <= k < |rs| && rs[k].species != name
  }

  ghost predicate LoneMonkeyPresent(rs: seq<Resident>) {
    exists k :: 0 <= k < |rs| && rs[k].species == Monkey && rs[k].count == 1
  }

  /** Some accepted biome is a substring of the enclosure's biome label. */
  ghost predicate BiomeFits(biomes: seq<string>, biome: string) {
    exists k :: 0 <= k < |biomes| && Occurs(biomes[k], biome)
  }

  /** Space left once the batch is placed: total, minus the residents, minus one
      extra unit when another species lives there, minus the batch itself. */
  ghost function FreeAfter(catalog: map<string, Species>, e: Enclosure, name: string, quantity: int): int
    requires name in catalog && Catalogued(catalog, e.residents)
  {
    e.capacity - Occupied(catalog, e.residents)
    - (if OtherSpeciesPresent(e.residents, name) then 1 else 0)
    - quantity * catalog[name].size
  }

  /** The enclosure passes every check of the per-enclosure loop. The first
      rule is what the carnivore guard amounts to: any carnivore resident
      rejects, whatever the request. */
  ghost predicate Admits(catalog: map<string, Species>, e: Enclosure, name: string, quantity: int)
    requires name in catalog && Catalogued(catalog, e.residents)
  {
    && !CarnivorePresent(catalog, e.residents)
    && !(catalog[name].carnivore && OtherSpeciesPresent(e.residents, name))
    && !(name == Monkey && LoneMonkeyPresent(e.residents))
    && BiomeFits(catalog[name].biomes, e.biome)
    && FreeAfter(catalog, e, name, quantity) >= 0
  }

  ghost function Placement(catalog: map<string, Species>, e: Enclosure, name: string, quantity: int): Report
    requires name in catalog && Catalogued(catalog, e.residents)
  {
    Report(e.number, FreeAfter(catalog, e, name, quantity), e.capacity)
  }

  /** The report one enclosure contributes: its placement if it admits the batch, nothing otherwise. */
  ghost function Pick(catalog: map<string, Species>, e: Enclosure, name: string, quantity: int): seq<Report>
    requires name in catalog && Catalogued(catalog, e.residents)
  {
    if Admits(catalog, e, name, quantity) then [Placement(catalog, e, name, quantity)] else []
  }

  /** The reports of the admitting enclosures, in table order. */
  ghost function Candidates(catalog: map<string, Species>, es: seq<Enclosure>, name: string, quantity: int): seq<Report>
    requires name in catalog && ResidentsCatalogued(catalog, es)
    decreases |es|
  {
    if es == [] then []
    else Candidates(catalog, es[..|es| - 1], name, quantity) + Pick(catalog, es[|es| - 1], name, quantity)
  }

  /** A report is a candidate exactly when it is the placement of an admitting enclosure. */
  lemma {:induction false} CandidatesExact(catalog: map<string, Species>, es: seq<Enclosure>, name: string, quantity: int)
    requires name in catalog && ResidentsCatalogued(catalog, es)
    ensures forall r :: r in Candidates(catalog, es, name, quantity) <==>
      exists i :: 0 <= i < |es| && Admits(catalog, es[i], name, quantity) && r == Placement(catalog, es[i], name, quantity)
  {
    if es != [] {
      var init, e := es[..|es| - 1], es[|es| - 1];
      CandidatesExact(catalog, init, name, quantity);
      forall r
        ensures r in Candidates(catalog, es, name, quantity) <==>
          exists i :: 0 <= i < |es| && Admits(catalog, es[i], name, quantity) && r == Placement(catalog, es[i], name, quantity)
      {
        if r in Candidates(catalog, init, name, quantity) {
          var i :| 0 <= i < |init| && Admits(catalog, init[i], name, quantity) && r == Placement(catalog, init[i], name, quantity);
          assert es[i] == init[i];
        }
        if exists i :: 0 <= i < |es| && Admits(catalog, es[i], name, quantity) && r == Placement(catalog, es[i], name, quantity) {
          var i :| 0 <= i < |es| && Admits(catalog, es[i], name, quantity) && r == Placement(catalog, es[i], name, quantity);
          if i < |init| {
            assert init[i] == es[i];
          }
        }
      }
    }
  }

  /** Distinct enclosure numbers give distinct report numbers. */
  lemma {:induction false} CandidatesDistinct(catalog: map<string, Species>, es: seq<Enclosure>, name: string, quantity: int)
    requires name in catalog && ResidentsCatalogued(catalog, es)
    requires DistinctEnclosureNumbers(es)
    ensures DistinctNumbers(Candidates(catalog, es, name, quantity))
  {
    if es != [] {
      var init, e := es[..|es| - 1], es[|es| - 1];
      CandidatesDistinct(catalog, init, name, quantity);
      CandidatesExact(catalog, init, name, quantity);
      var c0 := Candidates(catalog, init, name, quantity);
      forall p | 0 <= p < |c0|
        ensures c0[p].number != e.number
      {
        assert c0[p] in c0;
        var i :| 0 <= i < |init| && Admits(catalog, init[i], name, quantity) && c0[p] == Placement(catalog, init[i], name, quantity);
        assert init[i] == es[i];
      }
      var c := Candidates(catalog, es, name, quantity);
      assert c == c0 + (if Admits(catalog, e, name, quantity) then [Placement(catalog, e, name, quantity)] else []);
      if Admits(catalog, e, name, quantity) {
        assert c == c0 + [Placement(catalog, e, name, quantity)];
        forall p, q | 0 <= p < q < |c|
          ensures c[p].number != c[q].number
        {
          assert c[p] == c0[p];
          if q < |c0| {
            assert c[q] == c0[q];
          }
        }
      }
    }
  }

  /** An enclosure that fails a check contributes no report: no report carries its number. */
  lemma RejectedNeverReported(catalog: map<string, Species>, es: seq<Enclosure>, name: string, quantity: int, i: int)
    requires name in catalog && ResidentsCatalogued(catalog, es)
    requires DistinctEnclosureNumbers(es)
    requires 0 <= i < |es| && !Admits(catalog, es[i], name, quantity)
    ensures forall r :: r in Candidates(catalog, es, name, quantity) ==> r.number != es[i].number
  {
    CandidatesExact(catalog, es, name, quantity);
    forall r | r in Candidates(catalog, es, name, quantity)
      ensures r.number != es[i].number
    {
      var j :| 0 <= j < |es| && Admits(catalog, es[j], name, quantity) && r == Placement(catalog, es[j], name, quantity);
      assert j != i;
    }
  }

  /** An enclosure holding any carnivore is never reported, even when the
      request is for that same carnivore species. */
  lemma CarnivoreEnclosureNeverReported(catalog: map<string, Species>, es: seq<Enclosure>, name: string, quantity: int, i: int, k: int)
    requires name in catalog && ResidentsCatalogued(catalog, es)
    requires DistinctEnclosureNumbers(es)
    requires 0 <= i < |es| && 0 <= k < |es[i].residents| && catalog[es[i].residents[k].species].carnivore
    ensures forall r :: r in Candidates(catalog, es, name, quantity) ==> r.number != es[i].number
  {
    RejectedNeverReported(catalog, es, name, quantity, i);
  }

  /** A carnivore batch is never placed with a resident of another species. */
  lemma CarnivoreRequestNeverMixed(catalog: map<string, Species>, es: seq<Enclosure>, name: string, quantity: int, i: int, k: int)
    requires name in catalog && ResidentsCatalogued(catalog, es)
    requires DistinctEnclosureNumbers(es)
    requires catalog[name].carnivore
    requires 0 <= i < |es| && 0 <= k < |es[i].residents| && es[i].residents[k].species != name
    ensures forall r :: r in Candidates(catalog, es, name, quantity) ==> r.number != es[i].number
  {
    RejectedNeverReported(catalog, es, name, quantity, i);
  }

  /** A monkey batch is never placed where a resident monkey entry has count one. */
  lemma LoneMonkeyNeverJoined(catalog: map<string, Species>, es: seq<Enclosure>, quantity: int, i: int, k: int)
    requires Monkey in catalog && ResidentsCatalogued(catalog, es)
    requires DistinctEnclosureNumbers(es)
    requires 0 <= i < |es| && 0 <= k < |es[i].residents|
    requires es[i].residents[k].species == Monkey && es[i].residents[k].count == 1
    ensures forall r :: r in Candidates(catalog, es, Monkey, quantity) ==> r.number != es[i].number
  {
    RejectedNeverReported(catalog, es, Monkey, quantity, i);
  }

  /** Every report names an enclosure of the table whose biome label contains
      one of the requested species' biomes, and carries that enclosure's total
      and the free space left after the batch and the extra unit, never negative. */
  lemma ReportedEnclosure(catalog: map<string, Species>, es: seq<Enclosure>, name: string, quantity: int, r: Report)
    requires name in catalog && ResidentsCatalogued(catalog, es)
    requires r in Candidates(catalog, es, name, quantity)
    ensures exists i :: (
      && 0 <= i < |es| && r.number == es[i].number && r.total == es[i].capacity
      && BiomeFits(catalog[name].biomes, es[i].biome)
      && r.free == es[i].capacity - Occupied(catalog, es[i].residents)
                   - (if OtherSpeciesPresent(es[i].residents, name) then 1 else 0)
                   - quantity * catalog[name].size
      && r.free >= 0)
  {
    CandidatesExact(catalog, es, name, quantity);
  }

  /** With non-negative counts and positive sizes the residents take no negative space. */
  lemma {:induction false} OccupiedNonNegative(catalog: map<string, Species>, rs: seq<Resident>)
    requires Catalogued(catalog, rs)
    requires forall k :: 0 <= k < |rs| ==> rs[k].count >= 0 && catalog[rs[k].species].size >= 0
    ensures Occupied(catalog, rs) >= 0
  {
    if rs != [] {
      var init := rs[..|rs| - 1];
      assert forall k :: 0 <= k < |init| ==> init[k] == rs[k];
      OccupiedNonNegative(catalog, init);
    }
  }

  /** Every report's free space lies between zero and the enclosure total less the batch. */
  lemma ReportedWithinTotal(catalog: map<string, Species>, es: seq<Enclosure>, name: string, quantity: int, r: Report)
    requires name in catalog && WellFormedTables(catalog, es)
    requires quantity > 0
    requires r in Candidates(catalog, es, name, quantity)
    ensures 0 <= r.free <= r.total - quantity * catalog[name].size < r.total
  {
    CandidatesExact(catalog, es, name, quantity);
    var i :| 0 <= i < |es| && Admits(catalog, es[i], name, quantity) && r == Placement(catalog, es[i], name, quantity);
    OccupiedNonNegative(catalog, es[i].residents);
  }
}

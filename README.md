# Zoo enclosure allocator

`RecintosZoo` holds two tables: the zoo's enclosures (`recintos`) and its species catalog (`animais`). Each enclosure has a number, a biome label, a total size and the resident populations. Each species entry has a unit size, the biomes it accepts and a carnivore flag. `analisaRecintos(especie, quantidade)` answers which enclosures can take a batch of `quantidade` animals of species `especie`.

The allocator works in this order:

1. The species name is lower-cased and looked up; an unknown species gives "Animal inválido".
2. A quantity of zero or less gives "Quantidade inválida".
3. Every enclosure is walked in table order. For each one, the allocator adds up the space its residents take and notes three things: a carnivore is present, a species other than the requested one is present, or a monkey entry has count one. It then skips the enclosure when:
   - it holds a carnivore (see below);
   - the requested species is a carnivore and another species lives there;
   - the request is for monkeys and a lone monkey entry lives there;
   - none of the species' biomes is a substring of the enclosure's biome label;
   - the batch, plus one extra unit when another species is present, does not fit the free space.
4. Each remaining enclosure is reported with its number, the space left after the batch and its total.
5. If nothing remains the answer is "Não há recinto viável"; otherwise the reports are sorted by enclosure number.

The model has six modules:

- `ZooData`: the entities, the two constructor tables and the well-formedness facts about them.
- `Text`: lower-casing and the substring test (`String.prototype.includes`).
- `ZooRules`: the per-enclosure rules stated declaratively. `Candidates` is the list of reports in table order that the loop must produce.
- `ReportOrder`: ordering predicates. It proves that a permutation keeps numbers distinct and that a strictly ascending list is determined by its elements.
- `Zoo`: the class `RecintosZoo`.
  - `AnalisaRecintos` is the imperative method. Its nested loops are proved against `Candidates`.
  - The final sort is an in-place insertion sort on an array, proved sorted and a permutation.
- `ZooScenarios`: concrete requests against the installed tables, each with its exact answer proved through the class.

### What the code does where it differs from its comments

- **The carnivore guard rejects every enclosure that holds a carnivore.** Line 80 compares the requested name with the `especie` property of the first resident's catalog entry. Catalog entries have no such property, so the right-hand side is always `undefined`. The guard therefore reduces to "a carnivore is present". A lion request is thus never placed with a resident lion, and `analisaRecintos('leao', 1)` answers "Não há recinto viável". The model states this in `FirstResidentNameProperty` and follows it in `Admits`. `CarnivoreEnclosureNeverReported` proves it for every request.
- **Rules 4 and 5 of the header comment are not enforced.** The code has no hippopotamus-specific test; the biome check accepts any label that contains "savana" or "rio". A lone monkey is also not kept from being placed in an empty enclosure. The model follows the code.
- **Unknown species wins over a bad quantity.** An unknown species with quantity zero gives "Animal inválido".
- **The scenario answers are the code's.** `(macaco, 10)` has no viable enclosure: enclosure 1 has 7 free units and enclosure 2 has 5. `(hipopotamo, 1)` gives enclosures 1, 3 and 4, because the label "savana" alone admits a hippopotamus. `(leao, 1)` has none. `(gazela, 200)` has none.

## Model

| member | source | states |
|---|---|---|
| `ZooData.ZooTablesWellFormed` | src/recintos-zoo.js:13-28 | The installed tables are well formed: every resident species is catalogued, enclosure numbers are distinct, unit sizes are positive and resident counts are at least one. |
| `Zoo.RecintosZoo.constructor` | src/recintos-zoo.js:12-29 | The constructor installs exactly the enclosure table and the species catalog, and they satisfy the well-formedness invariant. |
| `ZooData.MessagesIdentifyErrors` | src/recintos-zoo.js:33-102 | The three `erro` texts ("Animal inválido", "Quantidade inválida", "Não há recinto viável") are pairwise different, so the text alone tells which check failed. |
| `Text.LowerChar` | src/recintos-zoo.js:33 | An ASCII capital maps to its lower-case letter (code point plus 32); every other character is unchanged; the result is never a capital. |
| `Text.Lower` | src/recintos-zoo.js:33 | Lower-casing the requested name keeps its length, lowers each character on its own as `LowerChar` does, and leaves no capital letter. |
| `Text.LowerIdempotent` | src/recintos-zoo.js:33 | Lower-casing a name twice gives the same as lower-casing it once. |
| `Text.LowerKeepsLowercase` | src/recintos-zoo.js:33 | A name without capitals is its own lower-cased form. |
| `Text.OccursShift` | src/recintos-zoo.js:87 | When the pattern is not a prefix, it occurs in the text exactly when it occurs in the text without its first character. |
| `Text.NotOccurs` | src/recintos-zoo.js:87 | A pattern whose first two characters appear together at no position of the text does not occur in it. |
| `Text.Includes` | src/recintos-zoo.js:87 | `includes` answers true exactly when the pattern occurs as a contiguous substring at some position of the text. |
| `Zoo.SomeBiomeIncluded` | src/recintos-zoo.js:87 | The biome test holds exactly when one of the species' biomes is a substring of the enclosure's biome label. |
| `Zoo.FirstResidentNameProperty` | src/recintos-zoo.js:80 | The value compared with the requested name in the carnivore guard is always absent, whatever the enclosure. |
| `Zoo.RecintosZoo.ScanResidents` | src/recintos-zoo.js:50-74 | The inner loop's total is the space the residents take. Its three flags are true exactly when a carnivore, a species other than the requested one, or a monkey entry of count one is among the residents. |
| `Zoo.RecintosZoo.AssessEnclosure` | src/recintos-zoo.js:76-96 | One enclosure is reported exactly when it passes all five rules. The report carries its number, its total and the free space left after the batch and the extra unit. |
| `Zoo.RecintosZoo.AnalisaRecintos` | src/recintos-zoo.js:31-113 | An unknown lower-cased species gives "Animal inválido", whatever the quantity. A known species with quantity at most zero gives "Quantidade inválida". A valid request succeeds exactly when some enclosure admits the batch, and otherwise gives "Não há recinto viável". On success the list is non-empty, sorted by number, and holds exactly the candidate reports; with distinct enclosure numbers it is strictly ascending. |
| `Zoo.Swap` | src/recintos-zoo.js:105-109 | Exchanging two array entries leaves the other entries alone and keeps the same elements. |
| `Zoo.SortByNumber` | src/recintos-zoo.js:105-109 | After the sort the array is ordered by enclosure number and holds the same elements as before. |
| `ZooRules.CandidatesExact` | src/recintos-zoo.js:49-97 | A report is in the candidate list exactly when it is the placement of some table enclosure that admits the batch. |
| `ZooRules.CandidatesDistinct` | src/recintos-zoo.js:49-97 | Distinct enclosure numbers give candidate reports with distinct numbers. |
| `ZooRules.RejectedNeverReported` | src/recintos-zoo.js:79-96 | No report carries the number of an enclosure that fails any rule. |
| `ZooRules.CarnivoreEnclosureNeverReported` | src/recintos-zoo.js:80 | An enclosure with any carnivore resident is never reported, even when that carnivore's own species is requested. |
| `ZooRules.CarnivoreRequestNeverMixed` | src/recintos-zoo.js:81 | A carnivore batch is never reported for an enclosure where another species lives. |
| `ZooRules.LoneMonkeyNeverJoined` | src/recintos-zoo.js:84 | A monkey batch is never reported for an enclosure holding a monkey entry of count one. |
| `ZooRules.ReportedEnclosure` | src/recintos-zoo.js:87-95 | Every report names a table enclosure whose biome label contains one of the species' biomes. It carries that enclosure's total and its free space: total minus residents minus the extra unit minus the batch, which is never negative. |
| `ZooRules.OccupiedNonNegative` | src/recintos-zoo.js:56-58 | With non-negative counts and sizes the residents never take negative space. |
| `ZooRules.ReportedWithinTotal` | src/recintos-zoo.js:90-95 | On well-formed tables with a positive quantity, a report's free space is at least zero and at most the total less the batch, so always below the total. |
| `ReportOrder.DistinctNumbersPermutation` | src/recintos-zoo.js:105-109 | Reordering a list of reports with distinct numbers keeps the numbers distinct. |
| `ReportOrder.StrictlyAscendingUnique` | src/recintos-zoo.js:105-109 | Two strictly ascending lists with the same elements are equal, so the sorted answer is determined by the set of viable reports. |
| `ZooScenarios.CatalogKeysFoundAsWritten` | src/recintos-zoo.js:21-33 | Every key of the installed catalog is its own lower-cased form, so a request spelled as the key is found. |
| `ZooScenarios.CandidatesOfFive` | src/recintos-zoo.js:49-97 | For a five-enclosure table, the candidates are the five enclosures' contributions in table order. |
| `ZooScenarios.EmptyEnclosure` | src/recintos-zoo.js:76-96 | An empty enclosure is reported exactly when the biome fits and the batch fits its total, with the total less the batch left free. |
| `ZooScenarios.OneResident` | src/recintos-zoo.js:56-96 | For an enclosure with one resident population, every rule and the free-space formula are spelled out for that resident. |
| `ZooScenarios.ResultDetermined` | src/recintos-zoo.js:104-112 | When the candidates are a known strictly ascending list, the allocator's promises force its answer to be exactly that list. |
| `ZooScenarios.MonkeyPairCandidates` | src/recintos-zoo.js:13-28 | On the installed tables, two monkeys fit enclosures 1, 2 and 3, with 5, 3 and 2 units left. |
| `ZooScenarios.CrocodileCandidates` | src/recintos-zoo.js:13-28 | On the installed tables, one crocodile fits only enclosure 4, with 5 units left. |
| `ZooScenarios.HippoCandidates` | src/recintos-zoo.js:13-28 | On the installed tables, one hippopotamus fits enclosures 1, 3 and 4, with 2, 0 and 4 units left. |
| `ZooScenarios.MonkeyTenCandidates` | src/recintos-zoo.js:13-28 | On the installed tables, no enclosure fits ten monkeys. |
| `ZooScenarios.GazelleHerdCandidates` | src/recintos-zoo.js:13-28 | On the installed tables, no enclosure fits two hundred gazelles. |
| `ZooScenarios.LionCandidates` | src/recintos-zoo.js:13-28 | On the installed tables, no enclosure takes one lion, not even enclosure 5 that holds a lion. |
| `ZooScenarios.MonkeyPairScenario` | src/recintos-zoo.js:31-113 | Asking for two monkeys answers enclosures 1, 2 and 3 in that order. |
| `ZooScenarios.UpperCaseMonkeyScenario` | src/recintos-zoo.js:33 | Asking for "MACACO" gives the same answer as asking for "macaco". |
| `ZooScenarios.CrocodileScenario` | src/recintos-zoo.js:31-113 | Asking for one crocodile answers enclosure 4 alone. |
| `ZooScenarios.HippoScenario` | src/recintos-zoo.js:31-113 | Asking for one hippopotamus answers enclosures 1, 3 and 4 in that order. |
| `ZooScenarios.MonkeyTenScenario` | src/recintos-zoo.js:99-102 | Asking for ten monkeys answers "Não há recinto viável". |
| `ZooScenarios.GazelleHerdScenario` | src/recintos-zoo.js:99-102 | Asking for two hundred gazelles answers "Não há recinto viável". |
| `ZooScenarios.LionScenario` | src/recintos-zoo.js:80 | Asking for one lion answers "Não há recinto viável", because the carnivore guard also rejects enclosure 5. |
| `ZooScenarios.UnknownSpeciesScenario` | src/recintos-zoo.js:33-35 | An unknown species with quantity zero answers "Animal inválido". |
| `ZooScenarios.ZeroQuantityScenario` | src/recintos-zoo.js:38-40 | A known species with quantity zero answers "Quantidade inválida". |

## Left out

- Output text: a report is the structured triple (number, free space, total), not the string "Recinto N (espaço livre: F total: T)". The sort comparator reads the number back out of that string with a regular expression and `parseInt`. The model compares the number directly, which gives the same order when every number is non-negative, as in the installed table (1 to 5).
- Zoo.RecintosZoo.AnalisaRecintos: has no exception path for a negative enclosure number. In the source, the pattern `Recinto (\d+)` finds no digits after "Recinto -", so the comparator throws a `TypeError` as soon as at least two enclosures are viable and one of them has a negative number. The model instead answers with those reports sorted like any others. With a single viable enclosure the comparator is never called, so the source succeeds there too.
- `Zoo.SortByNumber`: promises sorted order and the same elements, but not the stable order the engine's sort gives equal numbers. The sort algorithm itself (the engine's own) is replaced by insertion sort. With distinct enclosure numbers, as in the installed table, `ReportOrder.StrictlyAscendingUnique` shows the answer is the same either way.
- `Text.LowerChar`: lower-cases ASCII capitals only. Full Unicode `toLowerCase` (accented capitals, multi-character mappings) is not modelled; every catalog key is plain lower-case ASCII.
- `Zoo.RecintosZoo.AnalisaRecintos`: requires every resident's species to have a catalog entry. On tables that break this the source throws a `TypeError` while reading the missing entry's size; that exception is not modelled. The installed tables meet the requirement (`ZooData.ZooTablesWellFormed`).
- Dynamic typing of the arguments: the quantity is an integer. Non-numeric, fractional, `NaN` or string quantities are not modelled, and neither are 53-bit floating-point limits. Species names that hit inherited object properties (such as "constructor") are not modelled either: the catalog is a finite map.
- The `null` list in error answers and the `null` error in successful ones: the result is a two-variant datatype, so the absent half is absent by construction. `Error.Message` gives the three error texts, and `ZooData.MessagesIdentifyErrors` shows they are distinct.
- Repeating a request: the method has no `modifies` clause, so it cannot change either table. Two identical calls therefore see the same tables and get answers satisfying the same contract, which determines the answer exactly when enclosure numbers are distinct.
- The ES module export on line 116 is not part of this model.

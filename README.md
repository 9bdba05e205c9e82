# GeneSetDB of genometools, in Dafny

This project models the gene set database of genometools
(`genometools/basic/genesetdb.py`). It has two parts.

**The database** (`GeneSetDB`). It is built once from a list of gene sets
and is never changed afterwards. `__init__` sets up three things:

- an ordered dictionary from gene set ID to gene set;
- the tuple of its IDs;
- an ordered dictionary from ID to position.

A gene set can then be looked up by position (`get_by_index`) or by ID
(`get_by_id`), an ID can be turned into its position (`index`), and `db[key]`
picks one of the two lookups by the key's type. Because `__init__` changes
nothing after it runs, the database is a datatype (`GeneSetDatabase.GeneSetDB`)
built by the function `Create`. The invariant that `__init__` establishes is
`GeneSetDatabase.Valid`. The lookups are functions that return a `Result`:
either the value, or the error the Python code raises.

Python's `OrderedDict`, built from a list of `[key, value]` pairs, is modelled
in module `OrderedDicts`. A repeated key takes the newer value but keeps the
position where it first appeared.

**The MSigDB reader** (`read_msigdb_xml` and its callback `handle_item`).
The parsed XML file is given as a sequence of `Msigdb.Entry` values, one per
gene set element, holding the six attributes the callback reads. The callback
does the following for each entry, in document order:

- it drops entries whose organism is not the requested species;
- it splits the Entrez IDs at commas and maps them to gene symbols, skipping
  IDs the map does not know;
- it drops an entry when none of its IDs is known;
- it keeps every other entry as a gene set with source `MSigDB`;
- it updates the counters `i`, `total_gs`, `total_genes`, `species_excl` and
  `unknown_entrezid`.

`Msigdb.ReadMsigdbXml` is this loop, written as a method: an outer loop over
the entries and an inner loop over the Entrez IDs. It is proved equal to the
specification `Msigdb.Ingest`, which is a left fold of `Msigdb.HandleItem`.
The properties of the reader are lemmas about `Ingest`. The method returns
the database built from the retained gene sets, as the source does. It also
returns the counters: the source logs all of them except `i`, which it
updates but never reads.

The code does not reject a repeated ID: the `OrderedDict` keeps the ID at its
first position and stores the last gene set with that ID. The model does the
same (`CreateFirstOccurrence`, `CreateLastOccurrence`).

## Model

| member | source | states |
|---|---|---|
| `OrderedDicts.Put` | genometools/basic/genesetdb.py:60 | assigning to a key keeps the dictionary valid and stores the value under the key; a key already present keeps its position, a new key is listed last |
| `OrderedDicts.ValidSize` | genometools/basic/genesetdb.py:101-104 | a valid ordered dictionary lists as many keys as it maps |
| `OrderedDicts.DistinctCard` | genometools/basic/genesetdb.py:104 | a sequence without repetitions is as long as its set of elements, which makes the length of the ID tuple the size of the dictionary |
| `OrderedDicts.FromPairs` | genometools/basic/genesetdb.py:60 | building an `OrderedDict` from pairs lists every key exactly once, and the listed keys are exactly the stored ones |
| `OrderedDicts.FromPairsKeys` | genometools/basic/genesetdb.py:60 | the stored keys are exactly the keys that occur among the input pairs |
| `OrderedDicts.FromPairsSize` | genometools/basic/genesetdb.py:60-61 | the number of keys is the number of distinct keys among the pairs |
| `OrderedDicts.FromPairsEntriesFromInput` | genometools/basic/genesetdb.py:60 | every stored key/value pair is one of the input pairs |
| `OrderedDicts.FromPairsLastWins` | genometools/basic/genesetdb.py:60 | a key that does not occur after position j holds the value paired with it at j, which is the last value given for it |
| `OrderedDicts.FromPairsPrefix` | genometools/basic/genesetdb.py:60-61 | building from a prefix of the pairs lists a prefix of the keys, so keys listed earlier never move |
| `OrderedDicts.FromPairsFirstPosition` | genometools/basic/genesetdb.py:60-61 | a key first seen at position j is listed at the position equal to the number of distinct keys before j |
| `OrderedDicts.FromPairsDistinct` | genometools/basic/genesetdb.py:62-63 | with no repeated key, the keys are listed in input order and each holds its own value |
| `GeneSetDatabase.IdPairs` | genometools/basic/genesetdb.py:60 | there is one pair per input gene set, in input order, and each pairs the gene set with its own ID |
| `GeneSetDatabase.ValuesInOrder` | genometools/basic/genesetdb.py:63 | `itervalues()` yields one gene set per key, in key order, each the one stored under its key |
| `GeneSetDatabase.IndexPairs` | genometools/basic/genesetdb.py:62-63 | `enumerate` pairs the value at position i with its ID and with i, for every position |
| `GeneSetDatabase.RecordsKeyedById` | genometools/basic/genesetdb.py:60 | every gene set is stored under its own ID |
| `GeneSetDatabase.IndicesOfRecords` | genometools/basic/genesetdb.py:62-63 | the ID-to-position map built from the stored gene sets gives the ID at position i the value i, and lists the IDs in the same order |
| `GeneSetDatabase.Create` | genometools/basic/genesetdb.py:54-63 | `__init__` yields a valid database: the ID tuple is the ordered keys, each gene set is stored under its ID, and the position map inverts the ID tuple |
| `GeneSetDatabase.N` | genometools/basic/genesetdb.py:101-104 | `n` is the length of the ID tuple and the number of stored gene sets |
| `GeneSetDatabase.GeneSets` | genometools/basic/genesetdb.py:97-99 | `gene_sets` has `n` elements, and element i has the ID at position i |
| `GeneSetDatabase.GetById` | genometools/basic/genesetdb.py:106-127 | succeeds exactly when the ID is stored, returns a gene set with that ID, and otherwise fails with the unknown-ID error |
| `GeneSetDatabase.GetByIndex` | genometools/basic/genesetdb.py:129-150 | fails with the out-of-bounds error exactly when i >= n; returns element i of `gene_sets` for 0 <= i < n and element n+i for -n <= i < 0, as Python's tuple indexing does; fails with the tuple index error for i < -n |
| `GeneSetDatabase.Index` | genometools/basic/genesetdb.py:152-173 | succeeds exactly when the ID is stored, and returns a position below `n` whose ID is the given ID |
| `GeneSetDatabase.GetItem` | genometools/basic/genesetdb.py:72-81 | an `int` key is looked up with `get_by_index` and a string key with `get_by_id`; any other hashable key, a `long` among them, fails with `get_by_id`'s ValueError, and an unhashable key fails with TypeError |
| `GeneSetDatabase.PositionIdBijection` | genometools/basic/genesetdb.py:61-63 | for 0 <= i < n, with id the ID of the gene set at position i: the ID tuple holds id at i, `index(id)` is i and `get_by_id(id)` equals `get_by_index(i)` |
| `GeneSetDatabase.IdPositionRoundTrip` | genometools/basic/genesetdb.py:150-171 | for a stored ID, looking up the position that `index` gives returns the gene set that `get_by_id` gives |
| `GeneSetDatabase.KeysOfIdPairs` | genometools/basic/genesetdb.py:60 | the keys of the `[gs.id, gs]` pairs are the IDs of the input |
| `GeneSetDatabase.CreateIds` | genometools/basic/genesetdb.py:60-61 | the database holds exactly the IDs of the input list |
| `GeneSetDatabase.CreateSize` | genometools/basic/genesetdb.py:101-104 | `n` equals the number of distinct IDs in the input |
| `GeneSetDatabase.CreateUnique` | genometools/basic/genesetdb.py:97-99 | with unique IDs, `n` is the input length and `gene_sets` is the input list, in order |
| `GeneSetDatabase.CreateFirstOccurrence` | genometools/basic/genesetdb.py:60-63 | an ID keeps the position of its first occurrence: `index` gives the number of distinct IDs before it |
| `GeneSetDatabase.CreateLastOccurrence` | genometools/basic/genesetdb.py:60 | a repeated ID holds the last gene set with that ID |
| `GeneSetDatabase.CreateFromInput` | genometools/basic/genesetdb.py:97-99 | every gene set of the database is one of the input gene sets |
| `Msigdb.Split` | genometools/basic/genesetdb.py:275 | `split(',')` gives at least one piece, and no piece contains the separator |
| `Msigdb.JoinSplit` | genometools/basic/genesetdb.py:275 | joining the pieces with the separator gives back the string |
| `Msigdb.SplitJoin` | genometools/basic/genesetdb.py:275 | splitting a join of separator-free pieces gives back the pieces |
| `Msigdb.EntrezIds` | genometools/basic/genesetdb.py:275 | an entry has at least one Entrez ID piece, no piece contains a comma, and the pieces joined with commas give back the attribute |
| `Msigdb.KnownGenes` | genometools/basic/genesetdb.py:277-284 | the mapped genes are no more than the IDs, and each one is a symbol of the Entrez-to-gene map |
| `Msigdb.UnknownCount` | genometools/basic/genesetdb.py:278-283 | the number of unknown Entrez IDs is at most the number of IDs, and is 0 exactly when the map knows every ID |
| `Msigdb.KnownPlusUnknown` | genometools/basic/genesetdb.py:278-283 | every Entrez ID is either mapped to a gene or counted as unknown |
| `Msigdb.NoKnownGenesIff` | genometools/basic/genesetdb.py:285-288 | no gene is found exactly when none of the IDs is in the map |
| `Msigdb.KnownGenesAppend` | genometools/basic/genesetdb.py:277-284 | mapping a concatenation of ID lists concatenates the genes, so the genes follow the order of the IDs |
| `Msigdb.Classify` | genometools/basic/genesetdb.py:265-291 | an entry is excluded exactly when a species is given and its organism differs; it is dropped exactly when it passes that filter and none of its IDs is known; otherwise it becomes a gene set with the entry's names, category and description, source `MSigDB` and its known genes, which are not empty |
| `Msigdb.SpeciesMatching` | genometools/basic/genesetdb.py:265-269 | the entries that pass the species filter all come from the input and all match the species |
| `Msigdb.HandleItem` | genometools/basic/genesetdb.py:259-294 | every entry adds 1 to `total_gs`; an entry of another species adds 1 to `species_excl` and changes nothing else; any other entry adds its number of Entrez IDs to `total_genes` and its number of unmapped IDs to `unknown_entrezid`; exactly a retained entry appends its gene set and adds 1 to `i`, and at most one gene set is appended |
| `Msigdb.HandleEntry` | genometools/basic/genesetdb.py:259-294 | the callback, with its loop over the Entrez IDs, updates the list and counters exactly as `HandleItem` says |
| `Msigdb.Ingest` | genometools/basic/genesetdb.py:297-299 | after the callback has seen every entry, `total_gs` is the number of entries, `i` is the number of retained gene sets, and neither those sets nor `species_excl` outnumber the entries |
| `Msigdb.ReadMsigdbXml` | genometools/basic/genesetdb.py:248-318 | the loop computes `Ingest` and returns the database built from the retained gene sets; `total_gs` is the number of entries, `i` the number of retained sets, `total_gs` = `species_excl` + entries without a known gene + retained sets, and `total_genes` = `unknown_entrezid` + genes of the retained sets |
| `Msigdb.HandleItemCombines` | genometools/basic/genesetdb.py:259-294 | one callback on the combination of two states changes only the second state |
| `Msigdb.IngestSnoc` | genometools/basic/genesetdb.py:259-294 | reading one more entry applies the callback once more |
| `Msigdb.IngestAppend` | genometools/basic/genesetdb.py:259-294 | reading `a + b` is reading `a` and then `b`: the retained gene sets keep document order and all counters add |
| `Msigdb.IngestCounters` | genometools/basic/genesetdb.py:251-294 | `total_gs` counts every entry, and equals `species_excl` + entries without a known gene + retained sets; `i` is the number of retained sets; `total_genes` = `unknown_entrezid` + genes of the retained sets |
| `Msigdb.IngestSpeciesExcl` | genometools/basic/genesetdb.py:265-269 | `species_excl` counts exactly the entries that fail the species filter, and is 0 when no species is given |
| `Msigdb.IngestFiltersFirst` | genometools/basic/genesetdb.py:265-269 | the retained gene sets are those of the species-matching entries read without a filter |
| `Msigdb.IngestOrigin` | genometools/basic/genesetdb.py:290-292 | every retained gene set is what the callback makes of some input entry |
| `Msigdb.ReadMsigdbXmlSpecies` | genometools/basic/genesetdb.py:265-318 | with a species given, every gene set of the resulting database has at least one gene and comes from an entry of that organism with the same systematic name |
| `Msigdb.UnknownEntryDropped` | genometools/basic/genesetdb.py:285-288 | an entry of the right species with no known Entrez ID leaves the retained gene sets unchanged |

## Left out

- `read_tsv` and `write_tsv` (genometools/basic/genesetdb.py:176-217): these are file I/O through `unicodecsv`. They also depend on `GeneSet.from_list` and `GeneSet.to_list`, which are not part of this model, so no round trip can be stated.
- XML parsing (`xmltodict.parse`, the `pth[1][1]` attribute extraction, opening the file): this is a foreign library. The parsed entries are an input sequence instead.
- Logging and the percentage statistics (genometools/basic/genesetdb.py:197-198, 245-246, 301-316): these are side effects and floating point only. The counters they read are returned as values instead.
- `__repr__`, `__str__`, `__eq__`, `__ne__` and `__hash__`: equality goes through `repr`, which embeds Python's `hash()`, so it states nothing that can be verified.
- The `isinstance` assertions on the arguments: Dafny's types already enforce them.
- The `GeneSet` class itself is not part of this model. It is a record with the six fields the database and the reader use.
- `GeneSetDatabase.GetItem`: the caller decides the kind of `Key`. `IntKey` stands for a Python 2 `int`, a `bool` included. A `long` of any size must be given as `OtherKey`, because `isinstance(key, int)` is false for it. The model does not decide from a number's size whether Python holds it as an `int` or a `long`.
- `GeneSetDatabase.GetItem`: for a tuple key of other than one element, `get_by_id`'s message formatting `'%s' % (id_)` raises TypeError instead of ValueError. The model gives `NoSuchKey` for every `OtherKey`.
- Python version: the model follows Python 2, where the code runs. It uses `itervalues()` (genometools/basic/genesetdb.py:63, 216) and `unicode` (genometools/basic/genesetdb.py:241, 243), which Python 3 does not have. Under Python 3, which setup.py:115-116 declares, every `GeneSetDB(...)` raises AttributeError, so `read_msigdb_xml` fails at line 318 and already fails earlier, at line 241, with NameError. In the model, `Create` always succeeds.
- Integer width: the counters and positions are Python integers, which do not overflow, so they are `nat` and `int`.

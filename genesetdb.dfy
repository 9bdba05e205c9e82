/**
 * The gene set database of genometools: an ordered collection of gene sets in
 * which every gene set has an ID and a position, and can be looked up by
 * either.  It is built once, from a list of gene sets, and never changed.
 */
module GeneSetDatabase {
  import opened Wrappers
  import opened OrderedDicts

  /** A gene set, with the fields the database and the MSigDB reader use. */
  datatype GeneSet = GeneSet(
    id: string,
    name: string,
    genes: seq<string>,
    source: string,
    collection: string,
    description: string)

  /** The errors a lookup raises. */
  datatype LookupError =
    | UnknownId(id: string)                 // ValueError: no gene set with this ID
    | IndexOutOfBounds(index: int, n: nat)  // ValueError: the index is not below n
    | TupleIndexError(index: int)           // IndexError: a negative index below -n
    | NoSuchKey                             // ValueError: a key that is neither int nor string
    | UnhashableType                        // TypeError: the key cannot be hashed

  /**
   * A key of `db[key]`.  `IntKey` is a Python 2 `int` (a `bool` counts as 0 or
   * 1), `IdKey` a `str` or `unicode` ID.  `OtherKey` is any other hashable key,
   * a `long` among them: it is not an `int`, and no stored ID equals it.
   * `UnhashableKey` is a key such as a list, which the dictionary cannot hash.
   */
  datatype Key = IntKey(i: int) | IdKey(id: string) | OtherKey | UnhashableKey

  /**
   * The three attributes `__init__` sets: the ordered map from ID to gene set,
   * the tuple of IDs, and the ordered map from ID to position.
   */
  datatype GeneSetDB = GeneSetDB(
    records: OrderedDict<string, GeneSet>,
    ids: seq<string>,
    indices: OrderedDict<string, nat>)

  /** What `__init__` establishes and nothing afterwards changes. */
  ghost predicate Valid(db: GeneSetDB) {
    && OrderedDicts.Valid(db.records)
    && db.ids == db.records.keys
    && (forall k | k in db.records.entries :: db.records.entries[k].id == k)
    && OrderedDicts.Valid(db.indices)
    && db.indices.keys == db.ids
    && (forall i | 0 <= i < |db.ids| :: db.indices.entries[db.ids[i]] == i)
  }

  /** The IDs that occur in a list of gene sets. */
  function IdsOf(geneSets: seq<GeneSet>): set<string> {
    set i | 0 <= i < |geneSets| :: geneSets[i].id
  }

  /** The pairs of ID and gene set that `__init__` (line 60) builds its first dictionary from. */
  function IdPairs(geneSets: seq<GeneSet>): (ps: seq<(string, GeneSet)>)
    ensures |ps| == |geneSets|
    ensures forall i | 0 <= i < |ps| :: ps[i].1 == geneSets[i] && ps[i].0 == ps[i].1.id
  {
    seq(|geneSets|, i requires 0 <= i < |geneSets| => (geneSets[i].id, geneSets[i]))
  }

  /** The stored gene sets, in the order of their keys, as `itervalues()` (line 63) yields them. */
  function ValuesInOrder(d: OrderedDict<string, GeneSet>): (r: seq<GeneSet>)
    requires OrderedDicts.Valid(d)
    ensures |r| == |d.keys|
    ensures forall i | 0 <= i < |r| :: r[i] == d.entries[d.keys[i]]
  {
    seq(|d.keys|, i requires 0 <= i < |d.keys| => d.entries[d.keys[i]])
  }

  /** The pairs of ID and position that `__init__` (lines 62-63) builds the position map from. */
  function IndexPairs(values: seq<GeneSet>): (ps: seq<(string, nat)>)
    ensures |ps| == |values|
    ensures forall i | 0 <= i < |ps| :: ps[i] == (values[i].id, i)
  {
    seq(|values|, i requires 0 <= i < |values| => (values[i].id, i as nat))
  }

  /** Each gene set is stored under its own ID. */
  lemma RecordsKeyedById(geneSets: seq<GeneSet>)
    ensures var d := FromPairs(IdPairs(geneSets));
      forall k | k in d.entries :: d.entries[k].id == k
  {
    var d := FromPairs(IdPairs(geneSets));
    FromPairsEntriesFromInput(IdPairs(geneSets));
    forall k | k in d.entries ensures d.entries[k].id == k {
      assert (k, d.entries[k]) in IdPairs(geneSets);
    }
  }

  /** The position map built from the stored values gives every ID its own position. */
  lemma IndicesOfRecords(records: OrderedDict<string, GeneSet>)
    requires OrderedDicts.Valid(records)
    requires forall k | k in records.entries :: records.entries[k].id == k
    ensures var d := FromPairs(IndexPairs(ValuesInOrder(records)));
      && d.keys == records.keys
      && forall i | 0 <= i < |records.keys| :: d.entries[records.keys[i]] == i
  {
    var ps := IndexPairs(ValuesInOrder(records));
    assert forall i | 0 <= i < |ps| :: ps[i].0 == records.keys[i];
    FromPairsDistinct(ps);
  }

  /** `GeneSetDB(gene_sets)`. */
  function Create(geneSets: seq<GeneSet>): (db: GeneSetDB)
    ensures Valid(db)
  {
    var records := FromPairs(IdPairs(geneSets));
    var indices := FromPairs(IndexPairs(ValuesInOrder(records)));
    CreateValid(geneSets, records, indices);
    GeneSetDB(records, records.keys, indices)
  }

  lemma CreateValid(geneSets: seq<GeneSet>, records: OrderedDict<string, GeneSet>, indices: OrderedDict<string, nat>)
    requires records == FromPairs(IdPairs(geneSets))
    requires indices == FromPairs(IndexPairs(ValuesInOrder(records)))
    ensures Valid(GeneSetDB(records, records.keys, indices))
  {
    RecordsKeyedById(geneSets);
    IndicesOfRecords(records);
  }

  /** `db.n`: the number of gene sets. */
  function N(db: GeneSetDB): (n: nat)
    requires Valid(db)
    ensures n == |db.ids| == |db.records.entries|
  {
    ValidSize(db.records);
    |db.records.keys|
  }

  /** `db.gene_sets`: the stored gene sets, in the order of their positions. */
  function GeneSets(db: GeneSetDB): (r: seq<GeneSet>)
    requires Valid(db)
    ensures |r| == N(db)
    ensures forall i | 0 <= i < |r| :: r[i].id == db.ids[i]
  {
    ValuesInOrder(db.records)
  }

  /** `db.get_by_id(id)`. */
  function GetById(db: GeneSetDB, id: string): (r: Result<GeneSet, LookupError>)
    requires Valid(db)
    ensures r.Success? <==> id in db.ids
    ensures r.Success? ==> r.value.id == id
    ensures r.Failure? ==> r.error == UnknownId(id)
  {
    if id in db.records.entries then Success(db.records.entries[id]) else Failure(UnknownId(id))
  }

  /**
   * `db.get_by_index(i)`.  Only `i >= n` is rejected with a ValueError; a
   * negative index goes on to Python's tuple indexing, which counts from the
   * end for `-n <= i < 0` and raises IndexError below that.
   */
  function GetByIndex(db: GeneSetDB, i: int): (r: Result<GeneSet, LookupError>)
    requires Valid(db)
    ensures r == Failure(IndexOutOfBounds(i, N(db))) <==> i >= N(db)
    ensures 0 <= i < N(db) ==> r == Success(GeneSets(db)[i])
    ensures i < 0 && 0 <= N(db) + i ==> r == Success(GeneSets(db)[N(db) + i])
    ensures N(db) + i < 0 ==> r == Failure(TupleIndexError(i))
  {
    var n := N(db);
    if i >= n then Failure(IndexOutOfBounds(i, n))
    else
      var j := if i >= 0 then i else n + i;
      if j < 0 then Failure(TupleIndexError(i))
      else Success(db.records.entries[db.ids[j]])
  }

  /** `db.index(id)`. */
  function Index(db: GeneSetDB, id: string): (r: Result<nat, LookupError>)
    requires Valid(db)
    ensures r.Success? <==> id in db.ids
    ensures r.Success? ==> r.value < N(db) && db.ids[r.value] == id
    ensures r.Failure? ==> r.error == UnknownId(id)
  {
    if id in db.indices.entries then Success(db.indices.entries[id]) else Failure(UnknownId(id))
  }

  /**
   * `db[key]`: an `int` key is a position, any other key an ID.  A key of
   * another type is never stored, so `get_by_id` raises its ValueError; an
   * unhashable key makes the dictionary raise TypeError, which is not caught.
   */
  function GetItem(db: GeneSetDB, key: Key): (r: Result<GeneSet, LookupError>)
    requires Valid(db)
    ensures key.IntKey? ==> r == GetByIndex(db, key.i)
    ensures key.IdKey? ==> r == GetById(db, key.id)
    ensures key.OtherKey? ==> r == Failure(NoSuchKey)
    ensures key.UnhashableKey? ==> r == Failure(UnhashableType)
  {
    match key
    case IntKey(i) => GetByIndex(db, i)
    case IdKey(id) => GetById(db, id)
    case OtherKey => Failure(NoSuchKey)
    case UnhashableKey => Failure(UnhashableType)
  }

  // Properties of the lookups on any database built by `Create`.

  /** Positions and IDs are in one-to-one correspondence with 0 .. n-1. */
  lemma PositionIdBijection(db: GeneSetDB, i: nat)
    requires Valid(db) && i < N(db)
    ensures GetByIndex(db, i).Success?
    ensures var id := GetByIndex(db, i).value.id;
      && db.ids[i] == id
      && Index(db, id) == Success(i)
      && GetById(db, id) == GetByIndex(db, i)
  {
  }

  /** Looking up a stored ID's position gives back the gene set stored under the ID. */
  lemma IdPositionRoundTrip(db: GeneSetDB, id: string)
    requires Valid(db) && id in db.ids
    ensures Index(db, id).Success?
    ensures GetByIndex(db, Index(db, id).value) == GetById(db, id)
  {
  }

  /** The keys of the `[gs.id, gs]` pairs are the input's IDs. */
  lemma KeysOfIdPairs(geneSets: seq<GeneSet>)
    ensures KeysOf(IdPairs(geneSets)) == IdsOf(geneSets)
  {
    var ps := IdPairs(geneSets);
    forall id | id in IdsOf(geneSets) ensures id in KeysOf(ps) {
      var i :| 0 <= i < |geneSets| && geneSets[i].id == id;
      assert ps[i].0 == id;
    }
  }

  /** The database holds exactly the IDs of the input. */
  lemma CreateIds(geneSets: seq<GeneSet>)
    ensures forall id :: id in Create(geneSets).ids <==> id in IdsOf(geneSets)
  {
    FromPairsKeys(IdPairs(geneSets));
    KeysOfIdPairs(geneSets);
  }

  /** `n` is the number of distinct IDs in the input. */
  lemma CreateSize(geneSets: seq<GeneSet>)
    ensures N(Create(geneSets)) == |IdsOf(geneSets)|
  {
    FromPairsSize(IdPairs(geneSets));
    KeysOfIdPairs(geneSets);
  }

  /** With unique IDs, the database holds the input list itself, in order; so `n` is its length. */
  lemma CreateUnique(geneSets: seq<GeneSet>)
    requires forall i, j :: 0 <= i < j < |geneSets| ==> geneSets[i].id != geneSets[j].id
    ensures N(Create(geneSets)) == |geneSets|
    ensures GeneSets(Create(geneSets)) == geneSets
  {
    var ps := IdPairs(geneSets);
    FromPairsDistinct(ps);
    var db := Create(geneSets);
    var records := FromPairs(ps);
    assert db.records == records && db.ids == records.keys;
    assert |GeneSets(db)| == |geneSets|;
    forall i | 0 <= i < |geneSets| ensures GeneSets(db)[i] == geneSets[i] {
      assert records.keys[i] == ps[i].0 == geneSets[i].id;
      assert GeneSets(db)[i] == records.entries[records.keys[i]];
    }
  }

  /**
   * An ID keeps the position of its first occurrence in the input: the
   * number of distinct IDs before that occurrence.
   */
  lemma CreateFirstOccurrence(geneSets: seq<GeneSet>, j: nat)
    requires j < |geneSets|
    requires forall k :: 0 <= k < j ==> geneSets[k].id != geneSets[j].id
    ensures Index(Create(geneSets), geneSets[j].id) == Success(|IdsOf(geneSets[..j])|)
  {
    var ps := IdPairs(geneSets);
    FromPairsFirstPosition(ps, j);
    assert ps[..j] == IdPairs(geneSets[..j]);
    KeysOfIdPairs(geneSets[..j]);
  }

  /** An ID that occurs more than once holds the last gene set with that ID. */
  lemma CreateLastOccurrence(geneSets: seq<GeneSet>, j: nat)
    requires j < |geneSets|
    requires forall k :: j < k < |geneSets| ==> geneSets[k].id != geneSets[j].id
    ensures GetById(Create(geneSets), geneSets[j].id) == Success(geneSets[j])
  {
    FromPairsLastWins(IdPairs(geneSets), j);
  }

  /** Every gene set in the database is one of the input gene sets. */
  lemma CreateFromInput(geneSets: seq<GeneSet>)
    ensures forall g | g in GeneSets(Create(geneSets)) :: g in geneSets
  {
    var db := Create(geneSets);
    var records := FromPairs(IdPairs(geneSets));
    assert db.records == records;
    forall i | 0 <= i < |GeneSets(db)| ensures GeneSets(db)[i] in geneSets {
      StoredFromInput(geneSets, records.keys[i]);
    }
  }

  lemma StoredFromInput(geneSets: seq<GeneSet>, k: string)
    requires k in FromPairs(IdPairs(geneSets)).entries
    ensures FromPairs(IdPairs(geneSets)).entries[k] in geneSets
  {
    var ps := IdPairs(geneSets);
    var g := FromPairs(ps).entries[k];
    FromPairsEntriesFromInput(ps);
    var j :| 0 <= j < |ps| && ps[j] == (k, g);
    assert geneSets[j] == g;
  }
}

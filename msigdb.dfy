/**
 * Reading MSigDB gene sets (`GeneSetDB.read_msigdb_xml`).  The XML document
 * is taken as already parsed: one `Entry` per gene set element, holding the
 * attributes the reader consumes.  Each entry is handled as the parser's
 * callback `handle_item` handles it: filtered by species, its Entrez IDs
 * mapped to gene symbols, and kept as a gene set when at least one ID is
 * known, while the reader's counters are kept up to date.
 */
module Msigdb {
  import opened Wrappers
  import opened GeneSetDatabase

  /** The attributes of one gene set element of the MSigDB XML file. */
  datatype Entry = Entry(
    organism: string,          // ORGANISM
    systematicName: string,    // SYSTEMATIC_NAME
    standardName: string,      // STANDARD_NAME
    categoryCode: string,      // CATEGORY_CODE
    descriptionBrief: string,  // DESCRIPTION_BRIEF
    membersEzid: string)       // MEMBERS_EZID, comma-separated Entrez IDs

  /** The source recorded in every gene set read from MSigDB. */
  const Source: string := "MSigDB"

  // Python's `str.split(sep)` with an explicit one-character separator.

  /** The pieces between separators; an empty string gives one empty piece. */
  function Split(s: string, sep: char): (parts: seq<string>)
    ensures |parts| >= 1
    ensures forall i | 0 <= i < |parts| :: sep !in parts[i]
    decreases |s|
  {
    if s == [] then [""]
    else
      var rest := Split(s[1..], sep);
      if s[0] == sep then [""] + rest
      else [[s[0]] + rest[0]] + rest[1..]
  }

  /**
   * The pieces put back together with the separator between each two, as
   * Python's `sep.join(parts)` does; it is the inverse of `Split`.
   */
  function Join(parts: seq<string>, sep: char): string
    decreases |parts|
  {
    if parts == [] then ""
    else if |parts| == 1 then parts[0]
    else parts[0] + [sep] + Join(parts[1..], sep)
  }

  /** Joining the pieces of a split gives back the string. */
  lemma {:induction false} JoinSplit(s: string, sep: char)
    ensures Join(Split(s, sep), sep) == s
    decreases |s|
  {
    if s != [] {
      var rest := Split(s[1..], sep);
      JoinSplit(s[1..], sep);
      if s[0] == sep {
        assert ([""] + rest)[1..] == rest;
      } else {
        var parts := [[s[0]] + rest[0]] + rest[1..];
        assert parts[1..] == rest[1..];
        if |rest| > 1 {
          assert Join(rest, sep) == rest[0] + [sep] + Join(rest[1..], sep);
        }
      }
    }
  }

  /** Splitting a join of separator-free pieces gives back the pieces. */
  lemma {:induction false} SplitJoin(parts: seq<string>, sep: char)
    requires |parts| >= 1
    requires forall i | 0 <= i < |parts| :: sep !in parts[i]
    ensures Split(Join(parts, sep), sep) == parts
    decreases |parts|, |parts[0]|
  {
    var p := parts[0];
    if p == [] {
      if |parts| > 1 {
        SplitJoin(parts[1..], sep);
        assert Join(parts, sep) == [sep] + Join(parts[1..], sep);
        assert ([sep] + Join(parts[1..], sep))[1..] == Join(parts[1..], sep);
        assert [""] + parts[1..] == parts;
      }
    } else {
      var shorter := [p[1..]] + parts[1..];
      assert shorter[1..] == parts[1..];
      SplitJoin(shorter, sep);
      var s := Join(parts, sep);
      assert s == [p[0]] + Join(shorter, sep) by {
        if |parts| > 1 {
          assert s == p + [sep] + Join(parts[1..], sep);
          assert Join(shorter, sep) == p[1..] + [sep] + Join(parts[1..], sep);
        }
        assert p == [p[0]] + p[1..];
      }
      assert s[1..] == Join(shorter, sep);
      assert s[0] == p[0] && p[0] != sep;
      assert Split(s, sep) == [[p[0]] + p[1..]] + parts[1..];
      assert [p[0]] + p[1..] == p;
      assert [p] + parts[1..] == parts;
    }
  }

  /**
   * The Entrez IDs of an entry: its `MEMBERS_EZID` attribute cut at every
   * comma (line 275).  The pieces contain no comma and rejoin to the attribute.
   */
  function EntrezIds(data: Entry): (ids: seq<string>)
    ensures |ids| >= 1
    ensures forall i | 0 <= i < |ids| :: ',' !in ids[i]
    ensures Join(ids, ',') == data.membersEzid
  {
    JoinSplit(data.membersEzid, ',');
    Split(data.membersEzid, ',')
  }

  /** The symbols of the Entrez IDs that the map knows, in the order of the IDs. */
  function KnownGenes(entrez: seq<string>, entrez2gene: map<string, string>): (genes: seq<string>)
    ensures |genes| <= |entrez|
    ensures forall g | g in genes :: g in entrez2gene.Values
    decreases |entrez|
  {
    if entrez == [] then []
    else
      var e := entrez[|entrez| - 1];
      var before := KnownGenes(entrez[..|entrez| - 1], entrez2gene);
      if e in entrez2gene then before + [entrez2gene[e]] else before
  }

  /** The number of Entrez IDs that the map does not know. */
  function UnknownCount(entrez: seq<string>, entrez2gene: map<string, string>): (c: nat)
    ensures c <= |entrez|
    ensures c == 0 <==> forall i | 0 <= i < |entrez| :: entrez[i] in entrez2gene
    decreases |entrez|
  {
    if entrez == [] then 0
    else
      var e, init := entrez[|entrez| - 1], entrez[..|entrez| - 1];
      assert forall i | 0 <= i < |init| :: init[i] == entrez[i];
      UnknownCount(init, entrez2gene) + if e in entrez2gene then 0 else 1
  }

  /** Every Entrez ID is either mapped to a gene or counted as unknown. */
  lemma {:induction false} KnownPlusUnknown(entrez: seq<string>, entrez2gene: map<string, string>)
    ensures |KnownGenes(entrez, entrez2gene)| + UnknownCount(entrez, entrez2gene) == |entrez|
    decreases |entrez|
  {
    if entrez != [] {
      KnownPlusUnknown(entrez[..|entrez| - 1], entrez2gene);
    }
  }

  /** No gene is found exactly when no Entrez ID is known. */
  lemma {:induction false} NoKnownGenesIff(entrez: seq<string>, entrez2gene: map<string, string>)
    ensures KnownGenes(entrez, entrez2gene) == [] <==> forall i | 0 <= i < |entrez| :: entrez[i] !in entrez2gene
    decreases |entrez|
  {
    if entrez != [] {
      var init := entrez[..|entrez| - 1];
      NoKnownGenesIff(init, entrez2gene);
      assert forall i | 0 <= i < |init| :: init[i] == entrez[i];
    }
  }

  /** Mapping a concatenation of ID lists concatenates the genes: the order of the IDs is kept. */
  lemma {:induction false} KnownGenesAppend(a: seq<string>, b: seq<string>, entrez2gene: map<string, string>)
    ensures KnownGenes(a + b, entrez2gene) == KnownGenes(a, entrez2gene) + KnownGenes(b, entrez2gene)
    decreases |b|
  {
    if b == [] {
      assert a + b == a;
    } else {
      var init := b[..|b| - 1];
      KnownGenesAppend(a, init, entrez2gene);
      assert (a + b)[..|a + b| - 1] == a + init;
    }
  }

  /** What `handle_item` does with one entry. */
  datatype Outcome = SpeciesExcluded | NoKnownGenes | Retained(geneSet: GeneSet)

  /** Whether an entry passes the species filter. */
  predicate SpeciesMatches(data: Entry, species: Option<string>) {
    species.None? || data.organism == species.value
  }

  function Classify(data: Entry, entrez2gene: map<string, string>, species: Option<string>): (o: Outcome)
    ensures o.SpeciesExcluded? <==> !SpeciesMatches(data, species)
    ensures o.NoKnownGenes? <==>
      SpeciesMatches(data, species) && forall i | 0 <= i < |EntrezIds(data)| :: EntrezIds(data)[i] !in entrez2gene
    ensures o.Retained? ==>
      && o.geneSet.id == data.systematicName
      && o.geneSet.name == data.standardName
      && o.geneSet.genes == KnownGenes(EntrezIds(data), entrez2gene)
      && o.geneSet.genes != []
      && o.geneSet.source == Source
      && o.geneSet.collection == data.categoryCode
      && o.geneSet.description == data.descriptionBrief
  {
    NoKnownGenesIff(EntrezIds(data), entrez2gene);
    if !SpeciesMatches(data, species) then SpeciesExcluded
    else
      var genes := KnownGenes(EntrezIds(data), entrez2gene);
      if genes == [] then NoKnownGenes
      else Retained(GeneSet(data.systematicName, data.standardName, genes, Source,
                            data.categoryCode, data.descriptionBrief))
  }

  /** The reader's result list and counters. */
  datatype IngestState = IngestState(
    geneSets: seq<GeneSet>,
    i: nat,
    totalGs: nat,
    totalGenes: nat,
    speciesExcl: nat,
    unknownEntrezid: nat)

  const Initial := IngestState([], 0, 0, 0, 0, 0)

  /**
   * The effect of one `handle_item` callback on the reader's state.  Every
   * entry counts in `total_gs`; an entry of another species only in
   * `species_excl`; any other adds its number of Entrez IDs to `total_genes`
   * and its unknown ones to `unknown_entrezid`.  At most one gene set is
   * appended, exactly when the entry is retained, and `i` counts it.
   */
  function HandleItem(st: IngestState, data: Entry, entrez2gene: map<string, string>, species: Option<string>): (r: IngestState)
    ensures r.totalGs == st.totalGs + 1
    ensures !SpeciesMatches(data, species) ==>
      && r.speciesExcl == st.speciesExcl + 1
      && r.totalGenes == st.totalGenes
      && r.unknownEntrezid == st.unknownEntrezid
    ensures SpeciesMatches(data, species) ==>
      && r.speciesExcl == st.speciesExcl
      && r.totalGenes == st.totalGenes + |EntrezIds(data)|
      && r.unknownEntrezid == st.unknownEntrezid + UnknownCount(EntrezIds(data), entrez2gene)
    ensures Classify(data, entrez2gene, species).Retained? ==>
      r.geneSets == st.geneSets + [Classify(data, entrez2gene, species).geneSet] && r.i == st.i + 1
    ensures !Classify(data, entrez2gene, species).Retained? ==> r.geneSets == st.geneSets && r.i == st.i
  {
    var seen := st.(totalGs := st.totalGs + 1);
    var entrez := EntrezIds(data);
    var looked := seen.(totalGenes := seen.totalGenes + |entrez|,
                        unknownEntrezid := seen.unknownEntrezid + UnknownCount(entrez, entrez2gene));
    match Classify(data, entrez2gene, species)
    case SpeciesExcluded => seen.(speciesExcl := seen.speciesExcl + 1)
    case NoKnownGenes => looked
    case Retained(gs) => looked.(geneSets := looked.geneSets + [gs], i := looked.i + 1)
  }

  /** The reader's state after the callback has seen every entry, in document order. */
  function Ingest(entries: seq<Entry>, entrez2gene: map<string, string>, species: Option<string>): (r: IngestState)
    ensures r.totalGs == |entries|
    ensures |r.geneSets| <= |entries| && r.speciesExcl <= |entries|
    ensures r.i == |r.geneSets|
    decreases |entries|
  {
    if entries == [] then Initial
    else HandleItem(Ingest(entries[..|entries| - 1], entrez2gene, species), entries[|entries| - 1], entrez2gene, species)
  }

  /**
   * The callback `handle_item`, which updates the reader's counters and list
   * in place: it counts the entry, filters it by species, looks up each of
   * its Entrez IDs in turn and appends a gene set when one was found.
   */
  method HandleEntry(st: IngestState, data: Entry, entrez2gene: map<string, string>, species: Option<string>)
    returns (r: IngestState)
    ensures r == HandleItem(st, data, entrez2gene, species)
  {
    var geneSets, i, totalGs, totalGenes, speciesExcl, unknownEntrezid :=
      st.geneSets, st.i, st.totalGs, st.totalGenes, st.speciesExcl, st.unknownEntrezid;
    totalGs := totalGs + 1;
    if species.Some? && data.organism != species.value {
      speciesExcl := speciesExcl + 1;
    } else {
      var entrez := Split(data.membersEzid, ',');
      var genes: seq<string> := [];
      for t := 0 to |entrez|
        invariant genes == KnownGenes(entrez[..t], entrez2gene)
        invariant totalGenes == st.totalGenes + t
        invariant unknownEntrezid == st.unknownEntrezid + UnknownCount(entrez[..t], entrez2gene)
      {
        assert entrez[..t + 1][..t] == entrez[..t];
        var e := entrez[t];
        totalGenes := totalGenes + 1;
        if e in entrez2gene {
          genes := genes + [entrez2gene[e]];
        } else {
          unknownEntrezid := unknownEntrezid + 1;
        }
      }
      assert entrez[..|entrez|] == entrez;
      assert entrez == EntrezIds(data) && genes == KnownGenes(EntrezIds(data), entrez2gene);
      if genes != [] {
        var gs := GeneSet(data.systematicName, data.standardName, genes, Source,
                          data.categoryCode, data.descriptionBrief);
        assert Classify(data, entrez2gene, species) == Retained(gs);
        geneSets := geneSets + [gs];
        i := i + 1;
      } else {
        assert Classify(data, entrez2gene, species) == NoKnownGenes;
      }
    }
    r := IngestState(geneSets, i, totalGs, totalGenes, speciesExcl, unknownEntrezid);
  }

  /**
   * `GeneSetDB.read_msigdb_xml(path, entrez2gene, species)` on the parsed
   * entries of the file: the callback runs on every entry in document order,
   * and the result is the database of the retained gene sets, with the
   * counters the reader reports.
   */
  method ReadMsigdbXml(entries: seq<Entry>, entrez2gene: map<string, string>, species: Option<string>)
    returns (db: GeneSetDB, st: IngestState)
    ensures st == Ingest(entries, entrez2gene, species)
    ensures db == Create(st.geneSets)
    ensures st.totalGs == |entries| && st.i == |st.geneSets|
    ensures st.totalGs == st.speciesExcl + CountNoKnownGenes(entries, entrez2gene, species) + |st.geneSets|
    ensures st.totalGenes == st.unknownEntrezid + GeneTotal(st.geneSets)
  {
    st := Initial;
    for k := 0 to |entries|
      invariant st == Ingest(entries[..k], entrez2gene, species)
    {
      assert entries[..k + 1][..k] == entries[..k];
      st := HandleEntry(st, entries[k], entrez2gene, species);
    }
    assert entries[..|entries|] == entries;
    db := Create(st.geneSets);
    IngestCounters(entries, entrez2gene, species);
  }

  // Properties of the reader, stated on its specification `Ingest`.

  /** The number of entries with the given outcome kind. */
  function CountNoKnownGenes(entries: seq<Entry>, entrez2gene: map<string, string>, species: Option<string>): nat
    decreases |entries|
  {
    if entries == [] then 0
    else CountNoKnownGenes(entries[..|entries| - 1], entrez2gene, species)
         + if Classify(entries[|entries| - 1], entrez2gene, species).NoKnownGenes? then 1 else 0
  }

  /** The entries that pass the species filter, in order. */
  function SpeciesMatching(entries: seq<Entry>, species: Option<string>): (r: seq<Entry>)
    ensures |r| <= |entries|
    ensures forall e | e in r :: e in entries && SpeciesMatches(e, species)
    decreases |entries|
  {
    if entries == [] then []
    else
      var before := SpeciesMatching(entries[..|entries| - 1], species);
      if SpeciesMatches(entries[|entries| - 1], species) then before + [entries[|entries| - 1]] else before
  }

  /** The number of genes over a list of gene sets. */
  function GeneTotal(geneSets: seq<GeneSet>): nat
    decreases |geneSets|
  {
    if geneSets == [] then 0
    else GeneTotal(geneSets[..|geneSets| - 1]) + |geneSets[|geneSets| - 1].genes|
  }

  /** Two runs of the reader one after the other: the gene sets follow each other and the counters add up. */
  function Combine(x: IngestState, y: IngestState): IngestState {
    IngestState(x.geneSets + y.geneSets, x.i + y.i, x.totalGs + y.totalGs, x.totalGenes + y.totalGenes,
                x.speciesExcl + y.speciesExcl, x.unknownEntrezid + y.unknownEntrezid)
  }

  /** A callback on a combined state only touches the second part. */
  lemma HandleItemCombines(x: IngestState, y: IngestState, data: Entry, entrez2gene: map<string, string>, species: Option<string>)
    ensures HandleItem(Combine(x, y), data, entrez2gene, species) == Combine(x, HandleItem(y, data, entrez2gene, species))
  {
    match Classify(data, entrez2gene, species)
    case SpeciesExcluded =>
    case NoKnownGenes =>
    case Retained(gs) =>
      assert (x.geneSets + y.geneSets) + [gs] == x.geneSets + (y.geneSets + [gs]);
  }

  /** The reader's state after one more entry. */
  lemma IngestSnoc(entries: seq<Entry>, data: Entry, entrez2gene: map<string, string>, species: Option<string>)
    ensures Ingest(entries + [data], entrez2gene, species)
         == HandleItem(Ingest(entries, entrez2gene, species), data, entrez2gene, species)
  {
    assert (entries + [data])[..|entries|] == entries;
  }

  /** Reading entries `a + b` is reading `a`, then `b`: gene sets keep document order and counters add. */
  lemma {:induction false} IngestAppend(a: seq<Entry>, b: seq<Entry>, entrez2gene: map<string, string>, species: Option<string>)
    ensures Ingest(a + b, entrez2gene, species) == Combine(Ingest(a, entrez2gene, species), Ingest(b, entrez2gene, species))
    decreases |b|
  {
    if b == [] {
      assert a + b == a;
    } else {
      var init, last := b[..|b| - 1], b[|b| - 1];
      assert a + b == (a + init) + [last];
      assert b == init + [last];
      IngestAppend(a, init, entrez2gene, species);
      IngestSnoc(a + init, last, entrez2gene, species);
      IngestSnoc(init, last, entrez2gene, species);
      var sa, si := Ingest(a, entrez2gene, species), Ingest(init, entrez2gene, species);
      HandleItemCombines(sa, si, last, entrez2gene, species);
    }
  }

  /**
   * The counters account for every entry and every Entrez ID: each entry is
   * excluded by species, dropped for having no known gene, or retained, and
   * each ID of a species-matching entry is either a gene of a retained set or
   * counted as unknown.
   */
  lemma {:induction false} IngestCounters(entries: seq<Entry>, entrez2gene: map<string, string>, species: Option<string>)
    ensures var st := Ingest(entries, entrez2gene, species);
      && st.totalGs == |entries|
      && st.i == |st.geneSets|
      && st.totalGs == st.speciesExcl + CountNoKnownGenes(entries, entrez2gene, species) + |st.geneSets|
      && st.totalGenes == st.unknownEntrezid + GeneTotal(st.geneSets)
    decreases |entries|
  {
    if entries != [] {
      var init, data := entries[..|entries| - 1], entries[|entries| - 1];
      IngestCounters(init, entrez2gene, species);
      var prev := Ingest(init, entrez2gene, species);
      KnownPlusUnknown(EntrezIds(data), entrez2gene);
      NoKnownGenesIff(EntrezIds(data), entrez2gene);
      match Classify(data, entrez2gene, species)
      case SpeciesExcluded =>
      case NoKnownGenes =>
      case Retained(gs) =>
        assert (prev.geneSets + [gs])[..|prev.geneSets|] == prev.geneSets;
    }
  }

  /** The species filter counts exactly the entries whose organism differs from the requested species. */
  lemma {:induction false} IngestSpeciesExcl(entries: seq<Entry>, entrez2gene: map<string, string>, species: Option<string>)
    ensures Ingest(entries, entrez2gene, species).speciesExcl == |entries| - |SpeciesMatching(entries, species)|
    ensures species.None? ==> Ingest(entries, entrez2gene, species).speciesExcl == 0
    decreases |entries|
  {
    if entries != [] {
      IngestSpeciesExcl(entries[..|entries| - 1], entrez2gene, species);
    }
  }

  /** Filtering by species first and then reading without a filter retains the same gene sets. */
  lemma {:induction false} IngestFiltersFirst(entries: seq<Entry>, entrez2gene: map<string, string>, species: Option<string>)
    ensures Ingest(entries, entrez2gene, species).geneSets
         == Ingest(SpeciesMatching(entries, species), entrez2gene, None).geneSets
    decreases |entries|
  {
    if entries != [] {
      var init, data := entries[..|entries| - 1], entries[|entries| - 1];
      IngestFiltersFirst(init, entrez2gene, species);
      if SpeciesMatches(data, species) {
        var m := SpeciesMatching(init, species);
        assert (m + [data])[..|m|] == m;
      }
    }
  }

  /** Each retained gene set is what `handle_item` makes of some entry. */
  lemma {:induction false} IngestOrigin(entries: seq<Entry>, entrez2gene: map<string, string>, species: Option<string>)
    ensures forall g | g in Ingest(entries, entrez2gene, species).geneSets ::
      exists k :: 0 <= k < |entries| && Classify(entries[k], entrez2gene, species) == Retained(g)
    decreases |entries|
  {
    if entries != [] {
      var init := entries[..|entries| - 1];
      IngestOrigin(init, entrez2gene, species);
      forall g | g in Ingest(entries, entrez2gene, species).geneSets
        ensures exists k :: 0 <= k < |entries| && Classify(entries[k], entrez2gene, species) == Retained(g)
      {
        if g in Ingest(init, entrez2gene, species).geneSets {
          var k :| 0 <= k < |init| && Classify(init[k], entrez2gene, species) == Retained(g);
          assert init[k] == entries[k];
        } else {
          assert Classify(entries[|entries| - 1], entrez2gene, species) == Retained(g);
        }
      }
    }
  }

  /**
   * With a species given, every gene set of the resulting database comes from
   * an entry of that organism, and has at least one gene.
   */
  lemma ReadMsigdbXmlSpecies(entries: seq<Entry>, entrez2gene: map<string, string>, species: string)
    ensures var db := Create(Ingest(entries, entrez2gene, Some(species)).geneSets);
      forall g | g in GeneSets(db) ::
        && g.genes != []
        && exists k :: 0 <= k < |entries| && entries[k].organism == species && entries[k].systematicName == g.id
  {
    var gs := Ingest(entries, entrez2gene, Some(species)).geneSets;
    CreateFromInput(gs);
    IngestOrigin(entries, entrez2gene, Some(species));
  }

  /** An entry of the right species none of whose Entrez IDs is known leaves no trace among the gene sets. */
  lemma UnknownEntryDropped(a: seq<Entry>, data: Entry, b: seq<Entry>, entrez2gene: map<string, string>, species: Option<string>)
    requires SpeciesMatches(data, species)
    requires forall i | 0 <= i < |EntrezIds(data)| :: EntrezIds(data)[i] !in entrez2gene
    ensures Ingest(a + [data] + b, entrez2gene, species).geneSets == Ingest(a + b, entrez2gene, species).geneSets
  {
    NoKnownGenesIff(EntrezIds(data), entrez2gene);
    assert Classify(data, entrez2gene, species).NoKnownGenes?;
    IngestSnoc(a, data, entrez2gene, species);
    assert Ingest(a + [data], entrez2gene, species).geneSets == Ingest(a, entrez2gene, species).geneSets;
    IngestAppend(a + [data], b, entrez2gene, species);
    IngestAppend(a, b, entrez2gene, species);
  }
}

/**
 * The loop that creates the loci in the registry (lines 1045-1105): for each annotated
 * locus it creates the locus, links it to the species and to the schema, and records
 * the locus URL and its namespaced id; a locus the registry already holds (a resumed
 * upload) is only recorded. A failed request skips to the next locus. The registry's
 * status codes and the URI of each created locus are inputs.
 */
module Upload {
  import opened Wrappers
  import Text
  import Reconcile
  import RegistryStatus

  /** The registry's answers to the requests made for one locus. */
  datatype Replies = Replies(locusCode: int, locusUri: string, speciesCode: int, schemaCode: int)

  /** How far the loop got with one locus. */
  datatype Stage =
    | LocusNotCreated      // the creation request was refused
    | SpeciesNotLinked     // created, but the species link was refused
    | SchemaNotLinked      // created and linked to the species, but the schema link was refused
    | Uploaded             // created and linked to both
    | Reused               // the registry already held it

  /** The stages counted as inserted, linked to the species and linked to the schema. */
  const InsertedStages: set<Stage> := {SpeciesNotLinked, SchemaNotLinked, Uploaded}
  const SpeciesStages: set<Stage> := {SchemaNotLinked, Uploaded}
  const SchemaStages: set<Stage> := {Uploaded}

  /** The loop reaches its last two lines, which record the locus. */
  predicate Recorded(stage: Stage) {
    stage == Uploaded || stage == Reused
  }

  /** How far one locus gets with the registry's replies. */
  function StageOf(rec: Reconcile.LocusRecord, rep: Replies): Stage {
    if rec.existing.Some? then Reused
    else if RegistryStatus.PostLocus(rep.locusCode, rep.locusUri).LocusRefused? then LocusNotCreated
    else if RegistryStatus.LinkFails(rep.speciesCode) then SpeciesNotLinked
    else if RegistryStatus.LinkFails(rep.schemaCode) then SchemaNotLinked
    else Uploaded
  }

  /**
   * Lines 1054-1101: how far one locus gets, read from the status codes. A locus the
   * registry holds is reused; otherwise the creation, the species link and the schema
   * link are tried in turn, and the first refusal ends the attempt.
   */
  lemma StageOfCodes(rec: Reconcile.LocusRecord, rep: Replies)
    ensures StageOf(rec, rep) == Reused <==> rec.existing.Some?
    ensures StageOf(rec, rep) == LocusNotCreated <==> rec.existing.None? && RegistryStatus.LocusRefusedCode(rep.locusCode)
    ensures StageOf(rec, rep) == SpeciesNotLinked <==>
              rec.existing.None? && !RegistryStatus.LocusRefusedCode(rep.locusCode) && RegistryStatus.LinkFails(rep.speciesCode)
    ensures StageOf(rec, rep) == SchemaNotLinked <==>
              rec.existing.None? && !RegistryStatus.LocusRefusedCode(rep.locusCode) && !RegistryStatus.LinkFails(rep.speciesCode)
              && RegistryStatus.LinkFails(rep.schemaCode)
    ensures StageOf(rec, rep) == Uploaded <==>
              rec.existing.None? && !RegistryStatus.LocusRefusedCode(rep.locusCode) && !RegistryStatus.LinkFails(rep.speciesCode)
              && !RegistryStatus.LinkFails(rep.schemaCode)
  {
  }

  /** The URL of the locus in the registry: the one it already had, or the one it was created with. */
  function LocusUrl(rec: Reconcile.LocusRecord, rep: Replies): (url: string)
    ensures rec.existing.Some? ==> url == rec.existing.value
    ensures rec.existing.None? && !RegistryStatus.LocusRefusedCode(rep.locusCode) ==>
              RegistryStatus.PostLocus(rep.locusCode, rep.locusUri) == RegistryStatus.LocusCreated(url)
  {
    if rec.existing.Some? then rec.existing.value else rep.locusUri
  }

  /**
   * `int()` is applied to the last segment of the locus URL when the locus is linked
   * to the schema and when it is recorded; the code does not catch the error it
   * raises on anything but a decimal number.
   */
  predicate IdReadable(rec: Reconcile.LocusRecord, rep: Replies) {
    var stage := StageOf(rec, rep);
    stage != LocusNotCreated && stage != SpeciesNotLinked ==> RegistryStatus.NumericTail(LocusUrl(rec, rep))
  }

  function Stages(recs: seq<Reconcile.LocusRecord>, reps: seq<Replies>): (s: seq<Stage>)
    requires |reps| == |recs|
    ensures |s| == |recs|
    ensures forall i :: 0 <= i < |s| ==> s[i] == StageOf(recs[i], reps[i])
  {
    seq(|recs|, i requires 0 <= i < |recs| => StageOf(recs[i], reps[i]))
  }

  /** The number of stages in `wanted`. */
  function Count(stages: seq<Stage>, wanted: set<Stage>): (n: nat)
    ensures n <= |stages|
  {
    if stages == [] then 0
    else Count(stages[..|stages| - 1], wanted) + (if stages[|stages| - 1] in wanted then 1 else 0)
  }

  /** Counting a larger set of stages never gives less. */
  lemma {:induction false} CountMonotone(stages: seq<Stage>, small: set<Stage>, large: set<Stage>)
    requires small <= large
    ensures Count(stages, small) <= Count(stages, large)
  {
    if stages != [] {
      CountMonotone(stages[..|stages| - 1], small, large);
    }
  }

  /** A locus is linked to the schema only after the species, and to the species only after it was created. */
  lemma CountersOrdered(stages: seq<Stage>)
    ensures Count(stages, SchemaStages) <= Count(stages, SpeciesStages) <= Count(stages, InsertedStages) <= |stages|
  {
    CountMonotone(stages, SchemaStages, SpeciesStages);
    CountMonotone(stages, SpeciesStages, InsertedStages);
  }

  /**
   * The position of the last of the first `n` loci recorded under key `key`, or -1,
   * where `keyOf` gives the key a locus file is recorded under: the file itself in
   * `loci_urls` (`Identity`), its stem in `ns_ids` (`Stem`).
   */
  function LastRecordedKey(recs: seq<Reconcile.LocusRecord>, reps: seq<Replies>, keyOf: string -> string,
                           key: string, n: nat): (k: int)
    requires |reps| == |recs| && n <= |recs|
    ensures -1 <= k < n
    ensures k >= 0 ==> keyOf(recs[k].ann.locus) == key && Recorded(StageOf(recs[k], reps[k]))
    ensures forall j :: k < j < n ==> !(keyOf(recs[j].ann.locus) == key && Recorded(StageOf(recs[j], reps[j])))
  {
    if n == 0 then -1
    else if keyOf(recs[n - 1].ann.locus) == key && Recorded(StageOf(recs[n - 1], reps[n - 1])) then n - 1
    else LastRecordedKey(recs, reps, keyOf, key, n - 1)
  }

  function Identity(file: string): string {
    file
  }

  /** `loci_urls` after the first `n` loci. */
  function LociUrls(recs: seq<Reconcile.LocusRecord>, reps: seq<Replies>, n: nat): (m: map<string, string>)
    requires |reps| == |recs| && n <= |recs|
  {
    if n == 0 then map[]
    else
      var m := LociUrls(recs, reps, n - 1);
      var rec, rep := recs[n - 1], reps[n - 1];
      if Recorded(StageOf(rec, rep)) then m[rec.ann.locus := LocusUrl(rec, rep)] else m
  }

  /** Each recorded locus file maps to its URL; when a file is recorded twice, the later URL is kept. */
  lemma {:induction false} LociUrlsLastWins(recs: seq<Reconcile.LocusRecord>, reps: seq<Replies>, n: nat)
    requires |reps| == |recs| && n <= |recs|
    ensures forall f :: f in LociUrls(recs, reps, n) <==> LastRecordedKey(recs, reps, Identity, f, n) >= 0
    ensures forall f :: f in LociUrls(recs, reps, n) ==>
              LociUrls(recs, reps, n)[f] == LocusUrl(recs[LastRecordedKey(recs, reps, Identity, f, n)], reps[LastRecordedKey(recs, reps, Identity, f, n)])
  {
    if n > 0 {
      LociUrlsLastWins(recs, reps, n - 1);
    }
  }

  /**
   * `locus_basename.split('.fasta')[0]`: the key of a locus in `ns_ids`, the start of
   * the file's base name up to its first ".fasta" (all of it when there is none),
   * holding no slash.
   */
  function Stem(file: string): (r: string)
    ensures r <= Reconcile.Basename(file)
    ensures forall k: nat :: k < |r| ==> !Text.OccursAt(Reconcile.Basename(file), ".fasta", k)
    ensures |r| < |Reconcile.Basename(file)| ==> Text.OccursAt(Reconcile.Basename(file), ".fasta", |r|)
    ensures '/' !in r
  {
    var base := Reconcile.Basename(file);
    var r := Text.PrefixBefore(base, ".fasta");
    assert forall i :: 0 <= i < |r| ==> r[i] == base[i];
    r
  }

  /**
   * Line 1104: the namespaced id recorded for a locus URL ending in a decimal id. It
   * starts with the prefix, and its digits after the last dash read back as the id.
   */
  function NsIdOf(prefix: string, url: string): (r: string)
    requires RegistryStatus.NumericTail(url)
    ensures |r| > |prefix| && r[..|prefix|] == prefix
    ensures var tail := Text.LastSegment(r, '-');
            |tail| >= 6 && Text.AllDigits(tail) && Text.Value(tail) == Text.Value(Text.LastSegment(url, '/'))
  {
    Text.NsId(prefix, Text.Value(Text.LastSegment(url, '/')))
  }

  /**
   * `ns_ids` after the first `n` loci, where `keyOf` gives the key a locus file is
   * recorded under (the loop uses `Stem`).
   */
  function NsIds(recs: seq<Reconcile.LocusRecord>, reps: seq<Replies>, keyOf: string -> string,
                 prefix: string, n: nat): (m: map<string, string>)
    requires |reps| == |recs| && n <= |recs|
    requires forall i :: 0 <= i < |recs| ==> IdReadable(recs[i], reps[i])
  {
    if n == 0 then map[]
    else
      var m := NsIds(recs, reps, keyOf, prefix, n - 1);
      var rec, rep := recs[n - 1], reps[n - 1];
      if Recorded(StageOf(rec, rep)) then
        var url := LocusUrl(rec, rep);
        assert RegistryStatus.NumericTail(url) by {
          assert IdReadable(rec, rep);
        }
        m[keyOf(rec.ann.locus) := NsIdOf(prefix, url)]
      else m
  }

  /**
   * Each recorded locus's key maps to the namespaced id of the last locus recorded
   * under that key; no other key is present.
   */
  lemma {:induction false} NsIdsLastWins(recs: seq<Reconcile.LocusRecord>, reps: seq<Replies>, keyOf: string -> string,
                                         prefix: string, n: nat)
    requires |reps| == |recs| && n <= |recs|
    requires forall i :: 0 <= i < |recs| ==> IdReadable(recs[i], reps[i])
    ensures forall key :: key in NsIds(recs, reps, keyOf, prefix, n) <==> LastRecordedKey(recs, reps, keyOf, key, n) >= 0
    ensures forall key :: key in NsIds(recs, reps, keyOf, prefix, n) ==>
              var k := LastRecordedKey(recs, reps, keyOf, key, n);
              IdReadable(recs[k], reps[k]) && NsIds(recs, reps, keyOf, prefix, n)[key] == NsIdOf(prefix, LocusUrl(recs[k], reps[k]))
  {
    if n > 0 {
      NsIdsLastWins(recs, reps, keyOf, prefix, n - 1);
    }
  }

  /** One more locus extends `loci_urls` exactly when it is recorded. */
  lemma LociUrlsStep(recs: seq<Reconcile.LocusRecord>, reps: seq<Replies>, i: nat)
    requires |reps| == |recs| && i < |recs|
    ensures LociUrls(recs, reps, i + 1)
            == if Recorded(StageOf(recs[i], reps[i])) then LociUrls(recs, reps, i)[recs[i].ann.locus := LocusUrl(recs[i], reps[i])]
               else LociUrls(recs, reps, i)
  {
  }

  /** One more locus extends `ns_ids` exactly when it is recorded. */
  lemma NsIdsStep(recs: seq<Reconcile.LocusRecord>, reps: seq<Replies>, keyOf: string -> string, prefix: string, i: nat)
    requires |reps| == |recs| && i < |recs|
    requires forall j :: 0 <= j < |recs| ==> IdReadable(recs[j], reps[j])
    requires Recorded(StageOf(recs[i], reps[i])) ==> RegistryStatus.NumericTail(LocusUrl(recs[i], reps[i]))
    ensures NsIds(recs, reps, keyOf, prefix, i + 1)
            == if Recorded(StageOf(recs[i], reps[i]))
               then NsIds(recs, reps, keyOf, prefix, i)[keyOf(recs[i].ann.locus) := NsIdOf(prefix, LocusUrl(recs[i], reps[i]))]
               else NsIds(recs, reps, keyOf, prefix, i)
  {
  }

  /** The loop's results: the three counters and the two maps. */
  datatype Outcome = Outcome(inserted: nat, speciesLinked: nat, schemaLinked: nat,
                             lociUrls: map<string, string>, nsIds: map<string, string>)

  /**
   * Lines 1054-1100, for one locus: reuse the URL of a locus the registry holds, or
   * create the locus and link it to the species and then to the schema, stopping at
   * the first refusal. `url` is the locus URL when the locus gets recorded.
   */
  method UploadLocus(rec: Reconcile.LocusRecord, rep: Replies, speciesLoci: string, schemaLoci: string)
    returns (stage: Stage, url: string)
    requires IdReadable(rec, rep)
    ensures stage == StageOf(rec, rep)
    ensures url == LocusUrl(rec, rep)
    ensures Recorded(stage) ==> RegistryStatus.NumericTail(url)
  {
    if rec.existing.Some? {
      return Reused, rec.existing.value;
    }
    var created := RegistryStatus.PostLocus(rep.locusCode, rep.locusUri);
    url := rep.locusUri;
    if created.LocusRefused? {
      return LocusNotCreated, url;
    }
    var newLociId := Text.LastSegment(created.uri, '/');
    var speciesLink := RegistryStatus.PostSpeciesLoci(rep.speciesCode, speciesLoci, newLociId);
    if speciesLink.LinkRefused? {
      return SpeciesNotLinked, url;
    }
    var schemaLink := RegistryStatus.PostSchemaLoci(rep.schemaCode, created.uri, schemaLoci);
    if schemaLink.LinkRefused? {
      return SchemaNotLinked, url;
    }
    stage := Uploaded;
  }

  /**
   * Lines 1045-1105: the loop over the loci, counting the loci inserted and linked
   * and recording each locus that gets through. `speciesLoci` and `schemaLoci` are
   * the endpoints the two link requests go to.
   */
  method RunUploads(recs: seq<Reconcile.LocusRecord>, reps: seq<Replies>, prefix: string,
                    speciesLoci: string, schemaLoci: string) returns (out: Outcome)
    requires |reps| == |recs|
    requires forall i :: 0 <= i < |recs| ==> IdReadable(recs[i], reps[i])
    ensures out.inserted == Count(Stages(recs, reps), InsertedStages)
    ensures out.speciesLinked == Count(Stages(recs, reps), SpeciesStages)
    ensures out.schemaLinked == Count(Stages(recs, reps), SchemaStages)
    ensures out.schemaLinked <= out.speciesLinked <= out.inserted <= |recs|
    ensures out.lociUrls == LociUrls(recs, reps, |recs|)
    ensures out.nsIds == NsIds(recs, reps, Stem, prefix, |recs|)
  {
    var stages := Stages(recs, reps);
    var nsIds: map<string, string> := map[];
    var lociUrls: map<string, string> := map[];
    var inserted, schemaLinked, speciesLinked := 0, 0, 0;
    for i := 0 to |recs|
      invariant inserted == Count(stages[..i], InsertedStages)
      invariant speciesLinked == Count(stages[..i], SpeciesStages)
      invariant schemaLinked == Count(stages[..i], SchemaStages)
      invariant lociUrls == LociUrls(recs, reps, i)
      invariant nsIds == NsIds(recs, reps, Stem, prefix, i)
    {
      assert stages[..i + 1][..i] == stages[..i];
      var stage, url := UploadLocus(recs[i], reps[i], speciesLoci, schemaLoci);
      if stage in InsertedStages {
        inserted := inserted + 1;
      }
      if stage in SpeciesStages {
        speciesLinked := speciesLinked + 1;
      }
      if stage in SchemaStages {
        schemaLinked := schemaLinked + 1;
      }
      if Recorded(stage) {
        var locusFile := recs[i].ann.locus;
        lociUrls := lociUrls[locusFile := url];
        var nsId := NsIdOf(prefix, url);
        nsIds := nsIds[Stem(locusFile) := nsId];
      }
      LociUrlsStep(recs, reps, i);
      NsIdsStep(recs, reps, Stem, prefix, i);
    }
    assert stages[..|recs|] == stages;
    CountersOrdered(stages);
    out := Outcome(inserted, speciesLinked, schemaLinked, lociUrls, nsIds);
  }

  /**
   * The allele step that follows looks up `loci_urls` for every locus (lines 1124 and 1127).
   * When the locus files are distinct, every lookup succeeds exactly when no locus
   * failed in the loop.
   */
  lemma EveryLocusRecordedIffNoFailure(recs: seq<Reconcile.LocusRecord>, reps: seq<Replies>)
    requires |reps| == |recs|
    requires forall i, j :: 0 <= i < j < |recs| ==> recs[i].ann.locus != recs[j].ann.locus
    ensures (forall i :: 0 <= i < |recs| ==> recs[i].ann.locus in LociUrls(recs, reps, |recs|))
            <==> (forall i :: 0 <= i < |recs| ==> Recorded(StageOf(recs[i], reps[i])))
  {
    var m := LociUrls(recs, reps, |recs|);
    LociUrlsLastWins(recs, reps, |recs|);
    forall i | 0 <= i < |recs| && recs[i].ann.locus in m
      ensures Recorded(StageOf(recs[i], reps[i]))
    {
      var k := LastRecordedKey(recs, reps, Identity, recs[i].ann.locus, |recs|);
      assert recs[k].ann.locus == recs[i].ann.locus;
      assert k == i;
    }
    forall i | 0 <= i < |recs| && Recorded(StageOf(recs[i], reps[i]))
      ensures recs[i].ann.locus in m
    {
      assert LastRecordedKey(recs, reps, Identity, recs[i].ann.locus, |recs|) >= i;
    }
  }

  /**
   * The lengths step reads a locus id back out of the namespaced id (line 1167); for
   * every id the registry hands out it is the id the schema link used (line 628).
   */
  lemma NsIdGivesLocusId(prefix: string, url: string)
    requires RegistryStatus.NumericTail(url)
    requires Text.Value(Text.LastSegment(url, '/')) >= 1
    ensures Text.NsIdLocus(NsIdOf(prefix, url)) == RegistryStatus.LocusIdOf(url)
  {
    Text.NsIdRoundTrip(prefix, Text.Value(Text.LastSegment(url, '/')));
  }

  /**
   * The allele upload reads the locus id back out of the zip file name (line 1149);
   * it is the last segment of the locus URL the file was named after (line 1128).
   */
  lemma ZipNameGivesLocusId(dir: string, species: string, schema: string, url: string)
    requires RegistryStatus.NumericTail(url)
    ensures var locusId := Text.LastSegment(url, '/');
            Text.ZipLocusId(Text.ZipFile(dir, species, schema, locusId)) == locusId
  {
    Text.ZipLocusIdRoundTrip(dir, species, schema, Text.LastSegment(url, '/'));
  }

  /**
   * The lengths file of a locus is named after its stem (line 940) and the lengths
   * step finds the namespaced id under the stem it reads back (line 1166), as long
   * as the stem does not itself contain `_lengths`.
   */
  lemma LengthsFileFindsStem(dir: string, file: string)
    requires !Text.IsSubstring("_lengths", Stem(file))
    ensures Text.LengthsStem(Text.LengthsFile(dir, Stem(file))) == Stem(file)
  {
    var stem := Stem(file);
    var base := Reconcile.Basename(file);
    assert '/' !in stem by {
      assert forall i :: 0 <= i < |stem| ==> stem[i] == base[i];
    }
    Text.LengthsStemRoundTrip(dir, stem);
  }
}

# chewBBACA schema upload — a verified model of `load_schema.py`

This project models the decision logic of chewBBACA's schema uploader,
`CHEWBBACA/CHEWBBACA_NS/load_schema.py`. The uploader sends a local wgMLST schema to a
Chewie Nomenclature Server (the "registry"). It works in these steps:

1. It checks that the current user may upload at all. Only the Admin and Contributor roles may.
2. It re-validates the ten schema-construction parameters recorded in the schema's configuration
   snapshot. The run continues only when all ten are accepted.
3. It looks up whether the species already has a schema with the requested description. From that
   it decides to create a new schema, to resume an unfinished upload, or to stop.
4. When resuming, it compares the local loci with the registry's copy, locus by locus. This finds
   what is still missing or incomplete and marks the loci the registry already holds.
5. It picks a UniProt annotation for every locus from up to ten SPARQL answers.
6. It creates each locus, links it to the species and to the schema, and records its URL and its
   namespaced id (`<prefix>-<six digits>`). It counts how many loci got how far.
7. It builds file names and reads locus ids back out of them.

HTTP replies, SPARQL answers, file contents and directory listings are inputs to the model, and so
are Python's `float()`/`int()` parses of the stored configuration values. `int()` and `str()` on
registry ids (URL tails, namespaced ids) are modelled on decimal digit strings. Nothing is sent or read.

Modules (one file each):

- `Wrappers`: `Option`.
- `Text`: the string operations the uploader relies on and their round trips: `split(c)[-1]`,
  `split(sep)[0]`, `lstrip('0')`, `int()`/`str()` on decimal ids, `'%06d'`, the namespaced id,
  the zip name and the lengths file name.
- `ConfigValidation`: the ten validators and the gate in `main`.
- `SchemaLookup`: `retrieve_schema_info`, the role check, and the create/resume/stop decision.
- `Annotation`: the `get_annotation` selection loop.
- `Reconcile`: `determine_upload`, the loci-set check, and the filter-and-mark step when resuming.
- `RegistryStatus`: how `check_schema_status`, `post_locus`, `post_species_loci` and
  `post_schema_loci` read the registry's status codes.
- `Upload`: the locus loop, with its three counters and its two maps `loci_urls` and `ns_ids`.

Loops and accumulating code in the source are methods with loop invariants:
`RetrieveSchemaInfo`, `GetAnnotation`, `IndexRemoteLoci`, `DetermineUpload`, `MarkResumed` and
`RunUploads`. Each method is proved equal to a specification function. What the source promises is
then proved about that function. `UploadLocus` is the body of the upload loop for one locus, with
no loop of its own: each `continue` in the source is an early return.

## Model

All source paths are relative to the repository root.

| member | source | states |
|---|---|---|
| Text.LastSegment | CHEWBBACA/CHEWBBACA_NS/load_schema.py:60 | `s.split(c)[-1]` is a suffix of `s` free of `c`, and the character before it (if any) is `c` |
| Text.LastSegmentAppend | CHEWBBACA/CHEWBBACA_NS/load_schema.py:60 | splitting `a + c + b` on `c` gives back `b` when `b` holds no `c` |
| Text.PrefixBefore | CHEWBBACA/CHEWBBACA_NS/load_schema.py:1105 | `s.split(sep)[0]` is a prefix of `s` containing no `sep`, followed by `sep` unless it is all of `s` |
| Text.PrefixBeforeAppend | CHEWBBACA/CHEWBBACA_NS/load_schema.py:1149 | `(s + sep).split(sep)[0] == s` when `sep` does not occur in `s` and its first character does not recur in it |
| Text.LStrip | CHEWBBACA/CHEWBBACA_NS/load_schema.py:1167 | `lstrip(c)` removes exactly the leading run of `c`: what is left is a suffix that does not start with `c` |
| Text.DecimalString | CHEWBBACA/CHEWBBACA_NS/load_schema.py:628 | `str(n)` is a non-empty digit string with no leading zero except for `"0"` |
| Text.ValueOfDecimal | CHEWBBACA/CHEWBBACA_NS/load_schema.py:628 | `int(str(n)) == n` |
| Text.ParseInt | CHEWBBACA/CHEWBBACA_NS/load_schema.py:628 | `int(s)` on a string of digits succeeds exactly on non-empty digit strings and gives their value |
| Text.ValueLeadingZeros | CHEWBBACA/CHEWBBACA_NS/load_schema.py:1104 | leading zeros do not change the value read by `int()` |
| Text.ZeroPad | CHEWBBACA/CHEWBBACA_NS/load_schema.py:1104 | `'%06d' % n` is a digit string of value `n` and length max(6, digits of n) |
| Text.LStripLeadingZeros | CHEWBBACA/CHEWBBACA_NS/load_schema.py:1167 | stripping zeros from zeros followed by a string that does not start with `0` gives that string |
| Text.CanonicalId | CHEWBBACA/CHEWBBACA_NS/load_schema.py:628 | `str(int(s))` is a non-empty digit string with the same value as `s` |
| Text.NsId | CHEWBBACA/CHEWBBACA_NS/load_schema.py:1104 | `'{prefix}-%06d' % id` starts with the prefix, and the part after its last `-` is the zero-padded id: at least six digits that read back as `id`, whatever the prefix holds |
| Text.NsIdLocus | CHEWBBACA/CHEWBBACA_NS/load_schema.py:1167 | `ns_id.split('-')[-1].lstrip('0')` holds no `-`, does not start with `0`, and is no longer than the namespaced id |
| Text.NsIdRoundTrip | CHEWBBACA/CHEWBBACA_NS/load_schema.py:1167 | for every id from 1 up, `ns_id.split('-')[-1].lstrip('0')` gives back `str(id)` |
| Text.NsIdZeroIsLost | CHEWBBACA/CHEWBBACA_NS/load_schema.py:1167 | id 0 does not survive: the locus id read back is empty |
| Text.CanonicalIdOfUrl | CHEWBBACA/CHEWBBACA_NS/load_schema.py:628 | for a URL ending in `/<str(id)>`, the last segment and `str(int(...))` of it are both `str(id)` |
| Text.ZipFile | CHEWBBACA/CHEWBBACA_NS/load_schema.py:1128 | the zip name ends in `.zip`, and for a digit id the part after its last `_` is the id followed by `.zip` |
| Text.ZipLocusId | CHEWBBACA/CHEWBBACA_NS/load_schema.py:1149 | `file.split('_')[-1].split('.zip')[0]` holds no `_`, is a prefix of the last `_`-segment, and no `.zip` starts inside it |
| Text.ZipLocusIdRoundTrip | CHEWBBACA/CHEWBBACA_NS/load_schema.py:1128-1149 | the locus id read back from `{dir}/{species}_{schema}_{id}.zip` is the digit id the file was named with |
| Text.LengthsFile | CHEWBBACA/CHEWBBACA_NS/load_schema.py:940 | for a stem without `/`, the lengths file's base name is the stem followed by `_lengths` |
| Text.LengthsStem | CHEWBBACA/CHEWBBACA_NS/load_schema.py:1165-1166 | `file.split('/')[-1].split('_lengths')[0]` holds no `/`, is a prefix of the base name, and no `_lengths` starts inside it |
| Text.LengthsStemRoundTrip | CHEWBBACA/CHEWBBACA_NS/load_schema.py:1165-1166 | the stem read back from `{dir}/{stem}_lengths` is the stem, when it holds no `/` and no `_lengths` |
| ConfigValidation.Get | CHEWBBACA/CHEWBBACA_NS/load_schema.py:154 | `configs.get(key, 'na')` falls back to the placeholder exactly when the key is absent |
| ConfigValidation.Only | CHEWBBACA/CHEWBBACA_NS/load_schema.py:155 | a single value is read exactly when `len(entry) == 1`, the placeholder `'na'` having length 2 |
| ConfigValidation.Select | CHEWBBACA/CHEWBBACA_NS/load_schema.py:156-157 | the list comprehension keeps only listed names that pass the test, every such name, and never more entries than listed |
| ConfigValidation.SelectNone | CHEWBBACA/CHEWBBACA_NS/load_schema.py:156-157 | the comprehension is empty iff no listed name passes |
| ConfigValidation.OneSelected | CHEWBBACA/CHEWBBACA_NS/load_schema.py:156-158 | the comprehension has length 1 iff exactly one position of the listing passes, so a name listed twice counts twice |
| ConfigValidation.TrainingFiles | CHEWBBACA/CHEWBBACA_NS/load_schema.py:156-157 | the training files are exactly the listed names containing `.trn`, never more entries than listed |
| ConfigValidation.OneTrainingFile | CHEWBBACA/CHEWBBACA_NS/load_schema.py:156-158 | `len(schema_ptf_path) == 1` iff exactly one entry of the listing contains `.trn` |
| ConfigValidation.ValidatePtf | CHEWBBACA/CHEWBBACA_NS/load_schema.py:147-173 | accepted iff one hash is recorded, the directory holds exactly one `.trn` file and its hash is the recorded one; each outcome has its own message: found, not the original (a hash mismatch), file count, several recorded, not recorded; an empty recorded list leaves the message unbound |
| ConfigValidation.ValidateBsr | CHEWBBACA/CHEWBBACA_NS/load_schema.py:176-198 | accepted iff a single value parses as a float strictly between 0 and 1, kept as `str(float)` with the value message; any other single string is rejected with the out-of-range message naming it; not one value gives the single-value message; a `None` value raises |
| ConfigValidation.ValidateMsl | CHEWBBACA/CHEWBBACA_NS/load_schema.py:201-223 | accepted iff a single value parses as an integer ≥ 0, kept as `str(int)` with the value message; any other single string gets the invalid message; not one value gives the single-value message; a `None` value raises |
| ConfigValidation.ValidateSt | CHEWBBACA/CHEWBBACA_NS/load_schema.py:226-254 | never raises; accepted iff a single value is `None` (kept as `'None'`, no-threshold message) or a float ≥ 0 (value message); any other single string gets the invalid message; any other length, a missing key included, gets the multiple-values message |
| ConfigValidation.ValidateTt | CHEWBBACA/CHEWBBACA_NS/load_schema.py:257-275 | accepted iff a single integer is a genetic-code key, with the table's description in the message; another integer gets the unknown-table message; a `None` or non-integer value raises, outside any `try` |
| ConfigValidation.ValidateCv | CHEWBBACA/CHEWBBACA_NS/load_schema.py:278-295 | accepted iff a single value is a compatible version, with the version message; an unknown version raises in `.index`, so the "not suitable" message is never produced |
| ConfigValidation.ValidateWs | CHEWBBACA/CHEWBBACA_NS/load_schema.py:298-322 | a missing key is accepted as `'None'`; otherwise accepted iff the first value is an integer ≥ 4 (value message), any other first string gets the invalid message; an empty list or a `None` first value raises |
| ConfigValidation.ValidateCs | CHEWBBACA/CHEWBBACA_NS/load_schema.py:325-350 | a missing key is accepted as `'None'`; otherwise accepted iff the first value is a float ≥ 0 (value message), with no upper bound checked; any other first string gets the invalid message |
| ConfigValidation.ValidateFilter | CHEWBBACA/CHEWBBACA_NS/load_schema.py:353-405 | the representative and intra-cluster filters: missing is accepted as `'None'`, otherwise accepted iff the first value is a float in [0, 1] (value message), any other first string gets that filter's invalid message |
| ConfigValidation.ValidateRf | CHEWBBACA/CHEWBBACA_NS/load_schema.py:353-378 | raises iff the recorded list is empty or its first value is `None`; a rejection prints the invalid representative filter message, an accepted value prints the representative filter set to it |
| ConfigValidation.ValidateIf | CHEWBBACA/CHEWBBACA_NS/load_schema.py:381-405 | raises iff the recorded list is empty or its first value is `None`; a rejection prints the invalid intra-cluster filter message, an accepted value prints the intra-cluster filter set to it |
| ConfigValidation.Validations | CHEWBBACA/CHEWBBACA_NS/load_schema.py:797-806 | the ten validators, one per configuration key, in the order they run |
| ConfigValidation.FirstRaised | CHEWBBACA/CHEWBBACA_NS/load_schema.py:797-806 | the validators run in order; the first one that raises ends the run |
| ConfigValidation.KeysDistinct | CHEWBBACA/CHEWBBACA_NS/load_schema.py:822-827 | the ten parameter keys are distinct and none is `name`, so each value is sent under its own key |
| ConfigValidation.Params | CHEWBBACA/CHEWBBACA_NS/load_schema.py:822-827 | the parameters sent hold exactly the ten accepted values under their keys, plus the description as `name` |
| ConfigValidation.Decide | CHEWBBACA/CHEWBBACA_NS/load_schema.py:808-827 | crashes iff some validator raised; otherwise all ten messages are printed in order, and the run proceeds iff all ten values are truthy, with exactly those parameters |
| ConfigValidation.Gate | CHEWBBACA/CHEWBBACA_NS/load_schema.py:797-827 | on a configuration snapshot: crashes iff one of the ten validators raises, proceeds iff all ten pass; when it proceeds, the directory holds exactly one `.trn` file, its hash is sent as the training file and the description as `name` |
| ConfigValidation.MissingRequiredKeyHalts | CHEWBBACA/CHEWBBACA_NS/load_schema.py:818-819 | a missing `bsr`, `minimum_locus_length` or `size_threshold` stops the run |
| ConfigValidation.ClusteringKeysOptional | CHEWBBACA/CHEWBBACA_NS/load_schema.py:298-405 | a schema built without clustering passes all four clustering validators as `'None'` |
| ConfigValidation.ThresholdExamples | CHEWBBACA/CHEWBBACA_NS/load_schema.py:176-350 | BSR bounds are strict; a negative size threshold is rejected and `None` accepted; a cluster similarity of 1.5 is accepted |
| SchemaLookup.LastMatch | CHEWBBACA/CHEWBBACA_NS/load_schema.py:55-60 | the last schema listed with the description, or none |
| SchemaLookup.SchemaInfo | CHEWBBACA/CHEWBBACA_NS/load_schema.py:50-65 | 404 iff no listed schema has the description; otherwise the URL of the last match and its last path segment as id |
| SchemaLookup.RetrieveSchemaInfo | CHEWBBACA/CHEWBBACA_NS/load_schema.py:50-65 | the overwriting linear scan computes `SchemaInfo` |
| SchemaLookup.HasUploadRole | CHEWBBACA/CHEWBBACA_NS/load_schema.py:771-777 | the user may upload iff their roles include Admin or Contributor |
| SchemaLookup.ResumeDecision | CHEWBBACA/CHEWBBACA_NS/load_schema.py:851-884 | resume iff the list was retrieved, resuming was asked, the description is listed, the schema is still `singularity` and the user is not denied as admin; create iff not resuming and the description is free (or the species has no schemas); stop on a taken description; the schema id stays unbound iff resuming on a 'NOT FOUND' reply |
| SchemaLookup.ResumeWithoutSchemasIsUnbound | CHEWBBACA/CHEWBBACA_NS/load_schema.py:880-881 | resuming for a species whose schema list is 'NOT FOUND' goes on without a schema id |
| SchemaLookup.IntendedResumeDecision | CHEWBBACA/CHEWBBACA_NS/load_schema.py:851-884 | never leaves the schema id unbound; resuming with no schema to resume stops; agrees with the written decision on every other input |
| Annotation.Limit | CHEWBBACA/CHEWBBACA_NS/load_schema.py:535-564 | at most ten queries and no more than there are |
| Annotation.FirstNamed | CHEWBBACA/CHEWBBACA_NS/load_schema.py:545-550 | the first answer with a non-empty name, or none |
| Annotation.FirstPreferred | CHEWBBACA/CHEWBBACA_NS/load_schema.py:549-556 | the first answer whose name is not an unpreferred one, or none |
| Annotation.FirstPreferredStable | CHEWBBACA/CHEWBBACA_NS/load_schema.py:549-556 | once a preferred answer is found, reading further answers does not move it |
| Annotation.Kept | CHEWBBACA/CHEWBBACA_NS/load_schema.py:545-556 | the answer kept is the first preferred one if there is one among those seen, else the first named one, else the empty answer; its name is empty iff no answer so far had a name |
| Annotation.QueriesSent | CHEWBBACA/CHEWBBACA_NS/load_schema.py:533-564 | between one query and the limit are sent; no answer before the last one sent is preferred, so a preferred answer stops the search at once; fewer than the limit only when the last one sent is preferred; the limit whenever no answer is preferred |
| Annotation.StopPoint | CHEWBBACA/CHEWBBACA_NS/load_schema.py:533-564 | wherever the search stops (right after the first preferred answer, or at the limit), it has sent exactly `QueriesSent` queries and holds what it would hold at the limit |
| Annotation.Fill | CHEWBBACA/CHEWBBACA_NS/load_schema.py:566-572 | each field is filled on its own: an empty name or title becomes `not found`, an empty URL `http://not.found.org`, and a non-empty field is kept |
| Annotation.Chosen | CHEWBBACA/CHEWBBACA_NS/load_schema.py:524-574 | the result is the first preferred answer filled with placeholders if any, else the first named one, else the empty answer filled, whose name is `not found` |
| Annotation.GetAnnotation | CHEWBBACA/CHEWBBACA_NS/load_schema.py:524-574 | the loop returns `Chosen` after `QueriesSent` queries, between 1 and 10 |
| Annotation.SamePositions | CHEWBBACA/CHEWBBACA_NS/load_schema.py:545-556 | only which answers are named and preferred decides the positions picked |
| Annotation.FailureLikeEmptyName | CHEWBBACA/CHEWBBACA_NS/load_schema.py:540-560 | a query that raised is treated exactly like an answer with an empty name |
| Reconcile.ToSet | CHEWBBACA/CHEWBBACA_NS/load_schema.py:979-980 | `set(list)` holds exactly the list's elements |
| Reconcile.SubsetCardinality | CHEWBBACA/CHEWBBACA_NS/load_schema.py:987 | a subset is no larger |
| Reconcile.ProperSubsetCardinality | CHEWBBACA/CHEWBBACA_NS/load_schema.py:989 | a proper subset is smaller |
| Reconcile.RemoteNames | CHEWBBACA/CHEWBBACA_NS/load_schema.py:969-971 | the registry's locus file names, in the order listed |
| Reconcile.LastEntry | CHEWBBACA/CHEWBBACA_NS/load_schema.py:974 | the last registry entry for a file name, or none |
| Reconcile.UriIndex | CHEWBBACA/CHEWBBACA_NS/load_schema.py:966-974 | a file name is a key iff it is listed, and it maps to the URI of its last entry |
| Reconcile.IndexRemoteLoci | CHEWBBACA/CHEWBBACA_NS/load_schema.py:966-974 | the one-pass loop builds exactly `RemoteNames` and `UriIndex`; a reply with a message builds neither |
| Reconcile.IndexCoversNames | CHEWBBACA/CHEWBBACA_NS/load_schema.py:966-974 | the URI map's keys are exactly the listed names |
| Reconcile.CheckLociSets | CHEWBBACA/CHEWBBACA_NS/load_schema.py:984-997 | stop iff the registry has a locus the local schema lacks; the "more loci" exit is unreachable; "fewer" names the non-empty absent set; "same" iff the sets are equal |
| Reconcile.LocusDivergence | CHEWBBACA/CHEWBBACA_NS/load_schema.py:94-103 | a shared locus diverges iff the registry's sequences are not a subset of the local ones, reported as "more sequences" iff it has more |
| Reconcile.FirstOffence | CHEWBBACA/CHEWBBACA_NS/load_schema.py:76-103 | none iff every shared locus conforms; otherwise the first diverging shared locus and its reason |
| Reconcile.OffencePersists | CHEWBBACA/CHEWBBACA_NS/load_schema.py:94-103 | the first divergence found in a prefix is the first of the whole list |
| Reconcile.Missing | CHEWBBACA/CHEWBBACA_NS/load_schema.py:109-110 | exactly the local loci the registry lacks, in local order |
| Reconcile.Incomplete | CHEWBBACA/CHEWBBACA_NS/load_schema.py:105-107 | exactly the shared loci with local sequences the registry lacks, in local order |
| Reconcile.Reconciled | CHEWBBACA/CHEWBBACA_NS/load_schema.py:68-116 | the run stops iff some shared locus diverges; otherwise the missing loci followed by the incomplete ones |
| Reconcile.DetermineUpload | CHEWBBACA/CHEWBBACA_NS/load_schema.py:68-116 | the loop with its early exits computes `Reconciled` |
| Reconcile.IdenticalSchemasLeaveNothing | CHEWBBACA/CHEWBBACA_NS/load_schema.py:1008-1009 | when the registry holds every local locus with the same sequences, nothing is left to upload |
| Reconcile.MissingIsAbsent | CHEWBBACA/CHEWBBACA_NS/load_schema.py:989-991 | the missing loci are the local ones the registry lacks: exactly the non-empty absent set the loci check reports when the registry has fewer, and none when the sets are equal |
| Reconcile.KeepMentioned | CHEWBBACA/CHEWBBACA_NS/load_schema.py:1011-1012 | as written: keeps, in order, the loci whose path contains some name to upload as a substring |
| Reconcile.KeepUploaded | CHEWBBACA/CHEWBBACA_NS/load_schema.py:1011-1012 | as intended: keeps, in order, the loci whose file name is a name to upload |
| Reconcile.KeepUploadedWithinMentioned | CHEWBBACA/CHEWBBACA_NS/load_schema.py:1011-1012 | every locus the intended filter keeps, the written one keeps too |
| Reconcile.BasenameMentioned | CHEWBBACA/CHEWBBACA_NS/load_schema.py:1012 | a file name occurs in its own path |
| Reconcile.MentionedKeepsFinishedLocus | CHEWBBACA/CHEWBBACA_NS/load_schema.py:1011-1012 | the written filter keeps `dir/ab.fasta` when only `b.fasta` is to be uploaded |
| Reconcile.Mark | CHEWBBACA/CHEWBBACA_NS/load_schema.py:1015-1017 | a kept locus gets the registry URI iff its file name is a registry locus |
| Reconcile.Resumed | CHEWBBACA/CHEWBBACA_NS/load_schema.py:1014-1017 | every kept locus is marked, in order |
| Reconcile.MarkResumed | CHEWBBACA/CHEWBBACA_NS/load_schema.py:1014-1017 | the loop computes `Resumed` |
| Reconcile.ResumedMeansIncomplete | CHEWBBACA/CHEWBBACA_NS/load_schema.py:1002-1017 | with the intended file-name filter (`KeepUploaded`), after a reconciliation with something to send, a kept locus is marked as existing iff it is an incomplete locus, so the missing ones get created; with the filter as written this fails (second finding) |
| Reconcile.MentionedIncompleteIsMarked | CHEWBBACA/CHEWBBACA_NS/load_schema.py:1011-1017 | with the filter as written, a kept locus is marked as existing iff the registry lists its file name, so every kept incomplete locus is marked; a finished one that is kept is marked as well |
| RegistryStatus.CheckSchemaStatus | CHEWBBACA/CHEWBBACA_NS/load_schema.py:408-437 | created iff the status is 200 or 201; 403, 404 and 409 each have their own refusal; any other status is "could not insert" |
| RegistryStatus.PostLocus | CHEWBBACA/CHEWBBACA_NS/load_schema.py:474-490 | refused iff the status is 400, 403, 404 or 409, each with its own reason; otherwise created with the URI from the body |
| RegistryStatus.PostSpeciesLoci | CHEWBBACA/CHEWBBACA_NS/load_schema.py:603-611 | refused iff the status is above 201; otherwise linked at the species loci endpoint followed by the id as given |
| RegistryStatus.LocusIdOf | CHEWBBACA/CHEWBBACA_NS/load_schema.py:628 | the id sent is a digit string with the value of the URL's last segment and no leading zero |
| RegistryStatus.PostSchemaLoci | CHEWBBACA/CHEWBBACA_NS/load_schema.py:627-648 | refused iff the status is above 201; otherwise linked at the schema loci endpoint followed by `str(int(last segment))` |
| RegistryStatus.SchemaLinkUsesRegistryId | CHEWBBACA/CHEWBBACA_NS/load_schema.py:628-648 | for a locus URL ending in `/<str(id)>`, the schema link ends in `str(id)` |
| Upload.StageOfCodes | CHEWBBACA/CHEWBBACA_NS/load_schema.py:1054-1101 | a locus is reused iff the registry holds it; otherwise it is not created iff the status is 400, 403, 404 or 409, stops before the species iff that link returns above 201, stops before the schema iff only that link does, and is uploaded iff none fails |
| Upload.LocusUrl | CHEWBBACA/CHEWBBACA_NS/load_schema.py:1054-1067 | the URL of a reused locus is the one the registry had; a created locus has the URL its creation reply gave |
| Upload.Stages | CHEWBBACA/CHEWBBACA_NS/load_schema.py:1045-1101 | the stage each locus reaches, locus by locus |
| Upload.Count | CHEWBBACA/CHEWBBACA_NS/load_schema.py:1073-1101 | a counter never exceeds the number of loci |
| Upload.CountMonotone | CHEWBBACA/CHEWBBACA_NS/load_schema.py:1073-1101 | counting more stages never gives less |
| Upload.CountersOrdered | CHEWBBACA/CHEWBBACA_NS/load_schema.py:1073-1101 | schema-linked ≤ species-linked ≤ inserted ≤ number of loci |
| Upload.LociUrlsLastWins | CHEWBBACA/CHEWBBACA_NS/load_schema.py:1103 | `loci_urls` has a file iff some locus with that file was recorded, and maps it to the URL of the last one |
| Upload.LociUrlsStep | CHEWBBACA/CHEWBBACA_NS/load_schema.py:1103 | one more locus adds its URL iff it is recorded |
| Upload.LastRecordedKey | CHEWBBACA/CHEWBBACA_NS/load_schema.py:1103-1105 | the last recorded locus under a given key (its file in `loci_urls`, its stem in `ns_ids`), or none |
| Upload.Stem | CHEWBBACA/CHEWBBACA_NS/load_schema.py:1105 | `locus_basename.split('.fasta')[0]` is the prefix of the base name up to its first `.fasta`, or all of it when there is none; it holds no `/` |
| Upload.NsIdOf | CHEWBBACA/CHEWBBACA_NS/load_schema.py:1104 | the namespaced id starts with the prefix, and after its last `-` come at least six digits with the value of the locus URL's last segment |
| Upload.NsIdsLastWins | CHEWBBACA/CHEWBBACA_NS/load_schema.py:1104-1105 | `ns_ids` has a key iff some locus under that key was recorded, and maps it to the namespaced id of the last one |
| Upload.NsIdsStep | CHEWBBACA/CHEWBBACA_NS/load_schema.py:1104-1105 | one more locus adds its namespaced id iff it is recorded |
| Upload.UploadLocus | CHEWBBACA/CHEWBBACA_NS/load_schema.py:1054-1101 | one locus: reused if the registry has it, otherwise created, linked to the species and then to the schema, stopping at the first refusal; a recorded locus has a URL ending in a decimal id |
| Upload.RunUploads | CHEWBBACA/CHEWBBACA_NS/load_schema.py:1045-1105 | the three counters count the loci inserted, linked to the species and linked to the schema, in that order of size; the maps are `LociUrls` and `NsIds` keyed by stem |
| Upload.EveryLocusRecordedIffNoFailure | CHEWBBACA/CHEWBBACA_NS/load_schema.py:1103-1127 | with distinct locus files, every later `loci_urls` lookup succeeds iff no locus failed in the loop |
| Upload.NsIdGivesLocusId | CHEWBBACA/CHEWBBACA_NS/load_schema.py:1104-1167 | the locus id read back from the namespaced id is the one the schema link used |
| Upload.ZipNameGivesLocusId | CHEWBBACA/CHEWBBACA_NS/load_schema.py:1127-1149 | the locus id read back from the zip name is the last segment of the locus URL |
| Upload.LengthsFileFindsStem | CHEWBBACA/CHEWBBACA_NS/load_schema.py:1165-1166 | the lengths file of a locus (named at line 940) leads back to the `ns_ids` key of that locus, unless its stem contains `_lengths` |

## Left out

- Network and files are left out: every HTTP request, the SPARQL endpoint, pickle, zip, `os.listdir`,
  the training-file hash, FASTA parsing and the registry's JSON. Their results are parameters.
- Threads and processes are left out. `get_annotation` and `quality_control` run in pools;
  `GetAnnotation` models one call.
- Python's `float()` and `int()` on stored strings are inputs (`RawValue.asFloat`/`asInt`). Only
  their IEEE comparison is modelled, including infinities and NaN. `str(float)` is kept as the parsed value.
- `main` outside the steps above is not part of this model: argument parsing, the species lookup
  (lines 838-844), quality control and UniProt query building (888-919), computing the allele
  lengths (935-943), and creating the schema and reading its URL (950-956, 1021-1029).
- The allele, zip, lengths and training-file loops (lines 1118-1195) are left out. Only the file
  names they build and the ids they read back are modelled (`ZipNameGivesLocusId`,
  `NsIdGivesLocusId`, `LengthsFileFindsStem`, `EveryLocusRecordedIffNoFailure`).
- The summary line at 1109 prints the species counter for the schema. Printing is not modelled.
- Annotation.GetAnnotation: requires at least one query. With none, `queries[0]` raises IndexError
  outside the `try`, and the model does not represent that crash.
- Upload.UploadLocus, Upload.RunUploads and Upload.NsIds: require that every URL that reaches
  `int()` ends in a decimal id. The uncaught ValueError on anything else is not modelled.
- RegistryStatus.LocusIdOf and RegistryStatus.PostSchemaLoci: read only digit strings. Python's
  `int()` also accepts signs, surrounding whitespace and underscores.
- RegistryStatus.PostLocus: a status other than the four refusals is read as created with the
  URI from the body. A body that is not JSON, or has no `uri`, would raise; that is not modelled.
- SchemaLookup.ResumeDecision: several replies are inputs: the `'NOT FOUND' in` test on the JSON
  reply, the `dateEntered` of the existing schema and the "administrated" answer. A schema list
  whose first element is missing (line 870) is not modelled.
- The endpoints built by `make_url` are inputs (`speciesLoci`, `schemaLoci`).
- Upload.NsIdsLastWins: is stated for any function from a locus file to its key. `RunUploads`
  uses it with `Stem`, which is `basename(file).split('.fasta')[0]`.
- Reconcile.ResumedMeansIncomplete: is proved for the intended filter `KeepUploaded` only. With the
  filter as written (`KeepMentioned`), a kept locus that is complete in the registry is also marked
  as existing; `MentionedIncompleteIsMarked` states what still holds.
- ConfigValidation.ValidateSt: follows the code where the written description differs. A
  missing `size_threshold` reads as `'na'`, whose length is 2, so it is rejected and not accepted
  as `None`.

## Findings

| source | as written | input that shows it | evidently intended | confidence | as-written member | corrected member |
|---|---|---|---|---|---|---|
| CHEWBBACA/CHEWBBACA_NS/load_schema.py:880-881 | when resuming, a schema-list reply that mentions 'NOT FOUND' only prints "Species still has no schemas." and carries on; `schema_id` is next read at line 963 and was never set, so the run fails with a NameError | `--continue_up`, and a schema-list request answered with a non-2xx status whose body mentions 'NOT FOUND' | stop as at lines 860-861: there is no schema to resume | not executed | SchemaLookup.ResumeWithoutSchemasIsUnbound | SchemaLookup.IntendedResumeDecision |
| CHEWBBACA/CHEWBBACA_NS/load_schema.py:1011-1012 | a locus is kept when any name to upload occurs anywhere in its path | `b.fasta` is to be uploaded and `schema/ab.fasta` is complete in the registry; both are kept and `ab.fasta` is re-sent | keep a locus when its file name is one to upload, as lines 1015-1016 compare file names | not executed | Reconcile.MentionedKeepsFinishedLocus | Reconcile.KeepUploaded |

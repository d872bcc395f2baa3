/**
 * How the uploader reads the registry's HTTP status codes: the schema creation
 * request, the locus creation request and the two link requests. The requests
 * themselves are not modelled; their status codes (and, for a created locus, the
 * URI in the response body) are inputs.
 */
module RegistryStatus {
  import Text

  predicate Created(code: int) {
    code == 200 || code == 201
  }

  // ---------------------------------------------------------------------------
  // Creating the schema

  datatype SchemaRefusal = NoPermission | SpeciesNotInRegistry | DescriptionInUse | NotInserted

  /** The message `check_schema_status` prints, by what it says. */
  datatype SchemaMessage =
    | SchemaCreated(species: string)
    | SchemaRefused(code: int, reason: SchemaRefusal)

  /** Lines 408-437: the message for the status of the schema creation request. */
  function CheckSchemaStatus(code: int, species: string): (m: SchemaMessage)
    ensures m.SchemaCreated? <==> Created(code)
    ensures m.SchemaCreated? ==> m.species == species
    ensures m.SchemaRefused? ==> m.code == code
    ensures m.SchemaRefused? ==>
              (m.reason == NoPermission <==> code == 403)
              && (m.reason == SpeciesNotInRegistry <==> code == 404)
              && (m.reason == DescriptionInUse <==> code == 409)
  {
    if Created(code) then SchemaCreated(species)
    else if code == 403 then SchemaRefused(code, NoPermission)
    else if code == 404 then SchemaRefused(code, SpeciesNotInRegistry)
    else if code == 409 then SchemaRefused(code, DescriptionInUse)
    else SchemaRefused(code, NotInserted)
  }

  // ---------------------------------------------------------------------------
  // Creating a locus

  datatype LocusRefusal = LocusExists | SpeciesNotFound | Unauthorized | InvalidPrefix

  datatype LocusPost =
    | LocusRefused(code: int, reason: LocusRefusal)
    | LocusCreated(uri: string)

  predicate LocusRefusedCode(code: int) {
    code == 400 || code == 403 || code == 404 || code == 409
  }

  /**
   * Lines 474-490: only 400, 403, 404 and 409 are failures; every other status,
   * a server error included, is read as a created locus whose URI is in the body.
   */
  function PostLocus(code: int, bodyUri: string): (r: LocusPost)
    ensures r.LocusCreated? <==> !LocusRefusedCode(code)
    ensures r.LocusCreated? ==> r.uri == bodyUri
    ensures r.LocusRefused? ==> r.code == code
    ensures r.LocusRefused? ==>
              (r.reason == LocusExists <==> code == 409)
              && (r.reason == SpeciesNotFound <==> code == 404)
              && (r.reason == Unauthorized <==> code == 403)
              && (r.reason == InvalidPrefix <==> code == 400)
  {
    if code == 409 then LocusRefused(code, LocusExists)
    else if code == 404 then LocusRefused(code, SpeciesNotFound)
    else if code == 403 then LocusRefused(code, Unauthorized)
    else if code == 400 then LocusRefused(code, InvalidPrefix)
    else LocusCreated(bodyUri)
  }

  // ---------------------------------------------------------------------------
  // Linking a locus to the species and to the schema

  datatype LinkPost = LinkRefused(code: int) | Linked(url: string)

  /** Both link requests fail on any status above 201 and on nothing else. */
  predicate LinkFails(code: int) {
    code > 201
  }

  /**
   * Lines 603-611: link a locus to the species. `speciesLoci` is the species' loci
   * endpoint; the returned URL appends the locus id exactly as it was given.
   */
  function PostSpeciesLoci(code: int, speciesLoci: string, locusId: string): (r: LinkPost)
    ensures r.LinkRefused? <==> LinkFails(code)
    ensures r.LinkRefused? ==> r.code == code
    ensures r.Linked? ==> r.url == speciesLoci + "/" + locusId
  {
    if LinkFails(code) then LinkRefused(code) else Linked(speciesLoci + "/" + locusId)
  }

  /** The locus URL ends in a decimal id, so `int()` accepts its last segment. */
  predicate NumericTail(url: string) {
    Text.ParseInt(Text.LastSegment(url, '/')).Some?
  }

  /** `str(int(url.split('/')[-1]))`: the locus id without leading zeros. */
  function LocusIdOf(url: string): (id: string)
    requires NumericTail(url)
    ensures id != [] && Text.AllDigits(id)
    ensures Text.Value(id) == Text.Value(Text.LastSegment(url, '/'))
    ensures id[0] == '0' ==> id == "0"
  {
    Text.CanonicalId(Text.LastSegment(url, '/'))
  }

  /**
   * Lines 628-648: link a locus to the schema. The id sent, and appended to the
   * schema's loci endpoint, is the locus URL's last segment read as a number.
   */
  function PostSchemaLoci(code: int, locusUrl: string, schemaLoci: string): (r: LinkPost)
    requires NumericTail(locusUrl)
    ensures r.LinkRefused? <==> LinkFails(code)
    ensures r.LinkRefused? ==> r.code == code
    ensures r.Linked? ==> r.url == schemaLoci + "/" + LocusIdOf(locusUrl)
  {
    if LinkFails(code) then LinkRefused(code) else Linked(schemaLoci + "/" + LocusIdOf(locusUrl))
  }

  /** For a locus URL the registry builds from a numeric id, the schema link uses `str(id)`. */
  lemma SchemaLinkUsesRegistryId(code: int, base: string, id: nat, schemaLoci: string)
    requires !LinkFails(code)
    ensures var locusUrl := base + "/" + Text.DecimalString(id);
            NumericTail(locusUrl)
            && PostSchemaLoci(code, locusUrl, schemaLoci) == Linked(schemaLoci + "/" + Text.DecimalString(id))
  {
    Text.CanonicalIdOfUrl(base, id);
  }
}

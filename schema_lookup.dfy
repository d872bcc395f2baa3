/**
 * Before anything is sent: may the current user upload at all, is there already a schema
 * with the requested description for the species, and should the run create a new
 * schema, resume an unfinished one, or stop. The registry replies (the species' schema
 * list, the creation-date marker of an existing schema and the "administrated" answer)
 * are inputs.
 */
module SchemaLookup {
  import Text

  /** One entry of the species' schema list: its description and its URL. */
  datatype SchemaRecord = SchemaRecord(name: string, url: string)

  /** `retrieve_schema_info`'s result: 404, or the URL of the schema and its id. */
  datatype Lookup = NotFound | Found(url: string, id: string)

  /** The last position whose description is `desc`, or -1 when there is none. */
  function LastMatch(schemas: seq<SchemaRecord>, desc: string): (k: int)
    ensures -1 <= k < |schemas|
    ensures k >= 0 ==> schemas[k].name == desc
    ensures forall j :: k < j < |schemas| ==> schemas[j].name != desc
  {
    if schemas == [] then -1
    else if schemas[|schemas| - 1].name == desc then |schemas| - 1
    else LastMatch(schemas[..|schemas| - 1], desc)
  }

  /** The schema with description `desc`; when several share it, the last one listed. */
  function SchemaInfo(schemas: seq<SchemaRecord>, desc: string): (r: Lookup)
    ensures r.NotFound? <==> forall i :: 0 <= i < |schemas| ==> schemas[i].name != desc
    ensures r.Found? ==> r.url == schemas[LastMatch(schemas, desc)].url
    ensures r.Found? ==> r.id == Text.LastSegment(r.url, '/')
  {
    var k := LastMatch(schemas, desc);
    if k < 0 then NotFound
    else Found(schemas[k].url, Text.LastSegment(schemas[k].url, '/'))
  }

  /** `retrieve_schema_info`: a linear scan in which a later match overwrites an earlier one. */
  method RetrieveSchemaInfo(schemas: seq<SchemaRecord>, desc: string) returns (r: Lookup)
    ensures r == SchemaInfo(schemas, desc)
  {
    var schemaExists := false;
    var schemaUrl, schemaId := "", "";
    for i := 0 to |schemas|
      invariant SchemaInfo(schemas[..i], desc) == if schemaExists then Found(schemaUrl, schemaId) else NotFound
    {
      assert schemas[..i + 1][..i] == schemas[..i];
      if schemas[i].name == desc {
        schemaExists := true;
        schemaUrl := schemas[i].url;
        schemaId := Text.LastSegment(schemaUrl, '/');
      }
    }
    assert schemas[..|schemas|] == schemas;
    if schemaExists {
      r := Found(schemaUrl, schemaId);
    } else {
      r := NotFound;
    }
  }

  const UploadRoles: seq<string> := ["Admin", "Contributor"]

  /** Only administrators and contributors may upload schemas. */
  function HasUploadRole(roles: seq<string>): (r: bool)
    ensures r <==> "Admin" in roles || "Contributor" in roles
  {
    exists role | role in UploadRoles :: role in roles
  }

  /** The registry's answer to "list the schemas of this species". */
  datatype SchemasReply = SchemasReply(status: int, schemas: seq<SchemaRecord>, mentionsNotFound: bool)

  /** The JSON answer to "did the current user start this schema": a boolean or something else. */
  datatype AdminReply = AdminFlag(b: bool) | AdminOther

  datatype AbortReason =
    | NoSchemaToResume     // resuming, but no schema has this description
    | DescriptionTaken     // creating, but a schema with this description exists
    | UploadFinished       // the schema's creation marker is no longer the open marker
    | NotUploadStarter     // the registry says another user started the upload
    | SchemasUnavailable   // the schema list could not be retrieved

  datatype Decision =
    | CreateSchema
    | ResumeSchema(url: string, id: string)
    | Abort(reason: AbortReason)
    | SchemaIdUnbound      // the run goes on and later fails on a schema id it never set

  /** The `dateEntered` value of a schema that is still being uploaded. */
  const OpenMarker := "singularity"

  predicate Succeeded(status: int) {
    status == 200 || status == 201
  }

  /**
   * The decision in `main` between creating a schema, resuming one, and stopping,
   * as the code is written. `dateEntered` and `admin` are only consulted when an
   * existing schema is being resumed.
   */
  function ResumeDecision(reply: SchemasReply, desc: string, continueUp: bool,
                          dateEntered: string, admin: AdminReply): (d: Decision)
    ensures d.ResumeSchema? <==>
              Succeeded(reply.status) && continueUp && SchemaInfo(reply.schemas, desc).Found?
              && dateEntered == OpenMarker && admin != AdminFlag(false)
    ensures d.ResumeSchema? ==> SchemaInfo(reply.schemas, desc) == Found(d.url, d.id)
    ensures d.CreateSchema? <==>
              !continueUp && (if Succeeded(reply.status) then SchemaInfo(reply.schemas, desc).NotFound?
                              else reply.mentionsNotFound)
    ensures d == Abort(DescriptionTaken) <==>
              !continueUp && Succeeded(reply.status) && SchemaInfo(reply.schemas, desc).Found?
    ensures d == SchemaIdUnbound <==> continueUp && !Succeeded(reply.status) && reply.mentionsNotFound
  {
    if Succeeded(reply.status) then
      match SchemaInfo(reply.schemas, desc)
      case NotFound =>
        if !continueUp then CreateSchema else Abort(NoSchemaToResume)
      case Found(url, id) =>
        if !continueUp then Abort(DescriptionTaken)
        else if dateEntered != OpenMarker then Abort(UploadFinished)
        else if admin == AdminFlag(false) then Abort(NotUploadStarter)
        else ResumeSchema(url, id)
    else if reply.mentionsNotFound then
      if !continueUp then CreateSchema else SchemaIdUnbound
    else Abort(SchemasUnavailable)
  }

  /** Resuming for a species that has no schemas at all runs on without a schema id. */
  lemma ResumeWithoutSchemasIsUnbound(status: int, desc: string, dateEntered: string, admin: AdminReply)
    requires !Succeeded(status)
    ensures ResumeDecision(SchemasReply(status, [], true), desc, true, dateEntered, admin) == SchemaIdUnbound
  {
  }

  /**
   * The decision as evidently intended: resuming when the species has no schemas stops
   * with the same reason as resuming a description that is not listed. Every other
   * input is decided exactly as the code decides it.
   */
  function IntendedResumeDecision(reply: SchemasReply, desc: string, continueUp: bool,
                                  dateEntered: string, admin: AdminReply): (d: Decision)
    ensures !d.SchemaIdUnbound?
    ensures continueUp && (Succeeded(reply.status) ==> SchemaInfo(reply.schemas, desc).NotFound?)
            && (!Succeeded(reply.status) ==> reply.mentionsNotFound)
            ==> d == Abort(NoSchemaToResume)
    ensures var asWritten := ResumeDecision(reply, desc, continueUp, dateEntered, admin);
            !asWritten.SchemaIdUnbound? ==> d == asWritten
  {
    var ok := Succeeded(reply.status);
    if !ok && !reply.mentionsNotFound then Abort(SchemasUnavailable)
    else
      var info := if ok then SchemaInfo(reply.schemas, desc) else NotFound;
      match info
      case NotFound =>
        if continueUp then Abort(NoSchemaToResume) else CreateSchema
      case Found(url, id) =>
        if !continueUp then Abort(DescriptionTaken)
        else if dateEntered != OpenMarker then Abort(UploadFinished)
        else if admin == AdminFlag(false) then Abort(NotUploadStarter)
        else ResumeSchema(url, id)
  }
}

/**
 * The parameter gate of the schema uploader: ten validators, one per schema-construction
 * parameter recorded in the local schema's configuration snapshot, and the gate that
 * prints all ten messages and lets the run continue only when every validator accepted.
 *
 * A configuration maps a parameter name to the list of values recorded for it; a missing
 * key reads as the two-character string 'na'. Parsing with `int()` and `float()` is an
 * input: every stored string carries what each of them returns (`None` where Python
 * raises ValueError). A validator that would raise outside its `try` (or whose message
 * would stay unbound) yields `Raised`, and the gate then crashes instead of deciding.
 */
module ConfigValidation {
  import opened Wrappers
  import Text

  /** What `float()` returns: a finite double or one of the three special values. */
  datatype Float = Finite(x: real) | PosInf | NegInf | NaN

  /** `f >= b` under IEEE comparison. */
  predicate AtLeast(f: Float, b: real) {
    match f
    case Finite(x) => x >= b
    case PosInf => true
    case _ => false
  }

  /** `f <= b` under IEEE comparison. */
  predicate AtMost(f: Float, b: real) {
    match f
    case Finite(x) => x <= b
    case NegInf => true
    case _ => false
  }

  /** `f > b` under IEEE comparison. */
  predicate Above(f: Float, b: real) {
    match f
    case Finite(x) => x > b
    case PosInf => true
    case _ => false
  }

  /** `f < b` under IEEE comparison. */
  predicate Below(f: Float, b: real) {
    match f
    case Finite(x) => x < b
    case NegInf => true
    case _ => false
  }

  /** One recorded value: Python's `None`, or a string with what `int()` and `float()` make of it. */
  datatype RawValue = PyNone | Str(text: string, asInt: Option<int>, asFloat: Option<Float>)

  /** `configs.get(key, 'na')`: the recorded list, or the placeholder for a missing key. */
  datatype Entry = Missing | Listed(values: seq<RawValue>)

  type Configs = map<string, seq<RawValue>>

  function Get(c: Configs, key: string): (e: Entry)
    ensures e.Missing? <==> key !in c
  {
    if key in c then Listed(c[key]) else Missing
  }

  /** `len(entry)`: the placeholder 'na' has two characters. */
  function Len(e: Entry): nat {
    if e.Missing? then 2 else |e.values|
  }

  /** The single recorded value when `len(entry) == 1`. */
  function Only(e: Entry): (r: Option<RawValue>)
    ensures r.Some? <==> Len(e) == 1
  {
    if e.Listed? && |e.values| == 1 then Some(e.values[0]) else None
  }

  /** `float(v)` of the single recorded string, when there is one and it parses. */
  function OnlyFloat(e: Entry): Option<Float> {
    if Only(e).Some? && Only(e).value.Str? then Only(e).value.asFloat else None
  }

  /** `int(v)` of the single recorded string, when there is one and it parses. */
  function OnlyInt(e: Entry): Option<int> {
    if Only(e).Some? && Only(e).value.Str? then Only(e).value.asInt else None
  }

  /** The canonical value a validator accepts: `str(float)`, `str(int)`, `'None'` or a string. */
  datatype Canon = FloatText(f: Float) | IntText(n: int) | NoneText | Verbatim(s: string)

  /** The first element of a validator's result: `False` or the accepted value. */
  datatype Verdict = Rejected | Accepted(value: Canon)

  /** Python truthiness of the verdict: `False` and the empty string are falsy. */
  predicate Truthy(v: Verdict) {
    v.Accepted? && (v.value.Verbatim? ==> v.value.s != [])
  }

  datatype Filter = Representative | IntraCluster

  /** The message each validator prints, one constructor per distinct text. */
  datatype Message =
    | PtfFound | PtfNotOriginal | PtfFileCount | PtfSeveralRecorded | PtfNotRecorded
    | BsrSet(f: Float) | BsrOutOfRange(raw: string) | BsrNotSingle
    | MslSet(n: int) | MslInvalid | MslNotSingle
    | StSet(f: Float) | StWithout | StInvalid | StNotSingle
    | TtSet(n: int, description: string) | TtUnknown | TtNotSingle
    | CvSet(version: string) | CvUnsuitable | CvNotSingle
    | NoClustering
    | WsSet(n: int) | WsInvalid
    | CsSet(f: Float) | CsInvalid
    | FilterSet(filter: Filter, f: Float) | FilterInvalid(filter: Filter)

  /** The exception a validator lets escape. */
  datatype Fault = TypeErrorOnNone | ValueErrorUncaught | IndexErrorOnEmpty | MessageUnbound

  datatype Validation = Raised(fault: Fault) | Done(valid: Verdict, message: Message)

  predicate Passes(v: Validation) {
    v.Done? && Truthy(v.valid)
  }

  /** The names the test `keep` accepts, in listing order. */
  function Select(names: seq<string>, keep: string -> bool): (r: seq<string>)
    ensures |r| <= |names|
    ensures forall x :: x in r <==> x in names && keep(x)
  {
    if names == [] then []
    else (if keep(names[0]) then [names[0]] else []) + Select(names[1..], keep)
  }

  /** Position `i` of `names` passes `keep`, and no other position does. */
  predicate OnlyAt(names: seq<string>, keep: string -> bool, i: int) {
    0 <= i < |names| && keep(names[i])
    && forall j :: 0 <= j < |names| && j != i ==> !keep(names[j])
  }

  /** Exactly one position of `names` passes `keep`. */
  predicate SingleSelected(names: seq<string>, keep: string -> bool) {
    exists i | 0 <= i < |names| :: OnlyAt(names, keep, i)
  }

  /** Nothing is selected exactly when no name passes. */
  lemma SelectNone(names: seq<string>, keep: string -> bool)
    ensures Select(names, keep) == [] <==> forall j :: 0 <= j < |names| ==> !keep(names[j])
  {
    var r := Select(names, keep);
    if r != [] {
      assert r[0] in r;
    }
    if exists j :: 0 <= j < |names| && keep(names[j]) {
      var j :| 0 <= j < |names| && keep(names[j]);
      assert names[j] in names;
      assert names[j] in r;
    }
  }

  /** When the first name passes, exactly one passes iff none of the others does. */
  lemma SingleSelectedHead(names: seq<string>, keep: string -> bool)
    requires names != [] && keep(names[0])
    ensures SingleSelected(names, keep) <==> forall j :: 0 <= j < |names[1..]| ==> !keep(names[1..][j])
  {
    var rest := names[1..];
    if SingleSelected(names, keep) {
      var i :| 0 <= i < |names| && OnlyAt(names, keep, i);
      assert i == 0;
      forall j | 0 <= j < |rest|
        ensures !keep(rest[j])
      {
        assert rest[j] == names[j + 1];
      }
    }
    if forall j :: 0 <= j < |rest| ==> !keep(rest[j]) {
      forall j | 0 <= j < |names| && j != 0
        ensures !keep(names[j])
      {
        assert names[j] == rest[j - 1];
      }
      assert OnlyAt(names, keep, 0);
    }
  }

  /** When the first name fails, a single passing position in the list is one in its tail. */
  lemma SingleSelectedDrop(names: seq<string>, keep: string -> bool)
    requires names != [] && !keep(names[0]) && SingleSelected(names, keep)
    ensures SingleSelected(names[1..], keep)
  {
    var rest := names[1..];
    var i :| 0 <= i < |names| && OnlyAt(names, keep, i);
    assert i >= 1;
    forall j | 0 <= j < |rest| && j != i - 1
      ensures !keep(rest[j])
    {
      assert rest[j] == names[j + 1];
    }
    assert OnlyAt(rest, keep, i - 1);
  }

  /** When the first name fails, a single passing position in the tail is one in the list. */
  lemma SingleSelectedAdd(names: seq<string>, keep: string -> bool)
    requires names != [] && !keep(names[0]) && SingleSelected(names[1..], keep)
    ensures SingleSelected(names, keep)
  {
    var rest := names[1..];
    var i :| 0 <= i < |rest| && OnlyAt(rest, keep, i);
    forall j | 0 <= j < |names| && j != i + 1
      ensures !keep(names[j])
    {
      if j > 0 {
        assert names[j] == rest[j - 1];
      }
    }
    assert OnlyAt(names, keep, i + 1);
  }

  /** When the first name fails, exactly one passes iff exactly one of the others does. */
  lemma SingleSelectedSkip(names: seq<string>, keep: string -> bool)
    requires names != [] && !keep(names[0])
    ensures SingleSelected(names, keep) <==> SingleSelected(names[1..], keep)
  {
    if SingleSelected(names, keep) {
      SingleSelectedDrop(names, keep);
    }
    if SingleSelected(names[1..], keep) {
      SingleSelectedAdd(names, keep);
    }
  }

  /** Selecting gives one name exactly when one position passes, a repeated name counting twice. */
  lemma {:induction false} OneSelected(names: seq<string>, keep: string -> bool)
    ensures |Select(names, keep)| == 1 <==> SingleSelected(names, keep)
  {
    if names != [] {
      var rest := names[1..];
      OneSelected(rest, keep);
      SelectNone(rest, keep);
      if keep(names[0]) {
        SingleSelectedHead(names, keep);
      } else {
        SingleSelectedSkip(names, keep);
      }
    }
  }

  /** The name is a training file's: it contains ".trn". */
  predicate IsTraining(name: string) {
    Text.IsSubstring(".trn", name)
  }

  /** The files of the schema directory whose name contains ".trn", in listing order. */
  function TrainingFiles(listing: seq<string>): (r: seq<string>)
    ensures |r| <= |listing|
    ensures forall f :: f in r <==> f in listing && Text.IsSubstring(".trn", f)
  {
    Select(listing, IsTraining)
  }

  /**
   * The filter finds one training file exactly when exactly one entry of the listing
   * contains ".trn", so "exactly one training file" is a fact about the directory.
   */
  lemma OneTrainingFile(listing: seq<string>)
    ensures |TrainingFiles(listing)| == 1 <==> SingleSelected(listing, IsTraining)
  {
    OneSelected(listing, IsTraining);
  }

  /**
   * The gene-prediction training file: one recorded hash, one ".trn" file in the schema
   * directory, and that file's hash (an input) equal to the recorded one.
   */
  function ValidatePtf(e: Entry, listing: seq<string>, fileHash: string): (r: Validation)
    ensures r.Raised? <==> e == Listed([])
    ensures Passes(r) <==>
              Only(e).Some? && Only(e).value.Str? && Only(e).value.text == fileHash
              && |TrainingFiles(listing)| == 1 && fileHash != []
    ensures r.Done? && r.valid.Accepted? ==> r.valid.value == Verbatim(fileHash)
    ensures Only(e).Some? && |TrainingFiles(listing)| != 1 ==> r == Done(Rejected, PtfFileCount)
    ensures e.Missing? ==> r == Done(Rejected, PtfNotRecorded)
    ensures e.Listed? && |e.values| > 1 ==> r == Done(Rejected, PtfSeveralRecorded)
    ensures Only(e).Some? && |TrainingFiles(listing)| == 1 && Only(e).value.Str? && Only(e).value.text == fileHash ==>
              r == Done(Accepted(Verbatim(fileHash)), PtfFound)
    ensures Only(e).Some? && |TrainingFiles(listing)| == 1 && !(Only(e).value.Str? && Only(e).value.text == fileHash) ==>
              r == Done(Rejected, PtfNotOriginal)
  {
    match e
    case Missing => Done(Rejected, PtfNotRecorded)
    case Listed(vs) =>
      if |vs| == 1 then
        if |TrainingFiles(listing)| == 1 then
          if vs[0].Str? && vs[0].text == fileHash then Done(Accepted(Verbatim(fileHash)), PtfFound)
          else Done(Rejected, PtfNotOriginal)
        else Done(Rejected, PtfFileCount)
      else if |vs| > 1 then Done(Rejected, PtfSeveralRecorded)
      else Raised(MessageUnbound)
  }

  /** The BLAST score ratio: a single value strictly between 0 and 1. */
  function ValidateBsr(e: Entry): (r: Validation)
    ensures r.Raised? <==> Only(e) == Some(PyNone)
    ensures Passes(r) <==> OnlyFloat(e).Some? && Above(OnlyFloat(e).value, 0.0) && Below(OnlyFloat(e).value, 1.0)
    ensures r.Done? && r.valid.Accepted? ==> OnlyFloat(e).Some? && r.valid.value == FloatText(OnlyFloat(e).value)
    ensures Len(e) != 1 ==> r == Done(Rejected, BsrNotSingle)
    ensures OnlyFloat(e).Some? && Above(OnlyFloat(e).value, 0.0) && Below(OnlyFloat(e).value, 1.0) ==>
              r == Done(Accepted(FloatText(OnlyFloat(e).value)), BsrSet(OnlyFloat(e).value))
    ensures Only(e).Some? && Only(e).value.Str? && !(OnlyFloat(e).Some? && Above(OnlyFloat(e).value, 0.0) && Below(OnlyFloat(e).value, 1.0)) ==>
              r == Done(Rejected, BsrOutOfRange(Only(e).value.text))
  {
    match Only(e)
    case None => Done(Rejected, BsrNotSingle)
    case Some(PyNone) => Raised(TypeErrorOnNone)
    case Some(Str(text, _, parsed)) =>
      if parsed.Some? && Above(parsed.value, 0.0) && Below(parsed.value, 1.0) then
        Done(Accepted(FloatText(parsed.value)), BsrSet(parsed.value))
      else Done(Rejected, BsrOutOfRange(text))
  }

  /** The minimum locus length: a single integer that is not negative. */
  function ValidateMsl(e: Entry): (r: Validation)
    ensures r.Raised? <==> Only(e) == Some(PyNone)
    ensures Passes(r) <==> OnlyInt(e).Some? && OnlyInt(e).value >= 0
    ensures r.Done? && r.valid.Accepted? ==> OnlyInt(e).Some? && r.valid.value == IntText(OnlyInt(e).value)
    ensures Len(e) != 1 ==> r == Done(Rejected, MslNotSingle)
    ensures OnlyInt(e).Some? && OnlyInt(e).value >= 0 ==> r == Done(Accepted(IntText(OnlyInt(e).value)), MslSet(OnlyInt(e).value))
    ensures Only(e).Some? && Only(e).value.Str? && !(OnlyInt(e).Some? && OnlyInt(e).value >= 0) ==> r == Done(Rejected, MslInvalid)
  {
    match Only(e)
    case None => Done(Rejected, MslNotSingle)
    case Some(PyNone) => Raised(TypeErrorOnNone)
    case Some(Str(_, parsed, _)) =>
      if parsed.Some? && parsed.value >= 0 then Done(Accepted(IntText(parsed.value)), MslSet(parsed.value))
      else Done(Rejected, MslInvalid)
  }

  /**
   * The size threshold: a single value that is not negative, or a single `None`
   * (recorded as 'None'). A missing key is invalid: 'na' has length 2.
   */
  function ValidateSt(e: Entry): (r: Validation)
    ensures r.Done?
    ensures Passes(r) <==> Only(e) == Some(PyNone) || (OnlyFloat(e).Some? && AtLeast(OnlyFloat(e).value, 0.0))
    ensures Only(e) == Some(PyNone) ==> r == Done(Accepted(NoneText), StWithout)
    ensures OnlyFloat(e).Some? && AtLeast(OnlyFloat(e).value, 0.0) ==> r.Done? && r.valid == Accepted(FloatText(OnlyFloat(e).value))
    ensures Len(e) != 1 ==> r == Done(Rejected, StNotSingle)
    ensures OnlyFloat(e).Some? && AtLeast(OnlyFloat(e).value, 0.0) ==>
              r == Done(Accepted(FloatText(OnlyFloat(e).value)), StSet(OnlyFloat(e).value))
    ensures Only(e).Some? && Only(e).value.Str? && !(OnlyFloat(e).Some? && AtLeast(OnlyFloat(e).value, 0.0)) ==>
              r == Done(Rejected, StInvalid)
  {
    match Only(e)
    case None => Done(Rejected, StNotSingle)
    case Some(PyNone) => Done(Accepted(NoneText), StWithout)
    case Some(Str(_, _, parsed)) =>
      if parsed.Some? && AtLeast(parsed.value, 0.0) then Done(Accepted(FloatText(parsed.value)), StSet(parsed.value))
      else Done(Rejected, StInvalid)
  }

  /** The translation table: a single integer that is a key of the genetic-code table. */
  function ValidateTt(e: Entry, geneticCodes: map<int, string>): (r: Validation)
    ensures r.Raised? <==> Only(e).Some? && (Only(e).value.PyNone? || Only(e).value.asInt.None?)
    ensures Passes(r) <==> OnlyInt(e).Some? && OnlyInt(e).value in geneticCodes
    ensures r.Done? && r.valid.Accepted? ==> OnlyInt(e).Some? && r.valid.value == IntText(OnlyInt(e).value)
    ensures Len(e) != 1 ==> r == Done(Rejected, TtNotSingle)
    ensures OnlyInt(e).Some? && OnlyInt(e).value in geneticCodes ==>
              r == Done(Accepted(IntText(OnlyInt(e).value)), TtSet(OnlyInt(e).value, geneticCodes[OnlyInt(e).value]))
    ensures OnlyInt(e).Some? && OnlyInt(e).value !in geneticCodes ==> r == Done(Rejected, TtUnknown)
  {
    match Only(e)
    case None => Done(Rejected, TtNotSingle)
    case Some(PyNone) => Raised(TypeErrorOnNone)
    case Some(Str(_, parsed, _)) =>
      if parsed.None? then Raised(ValueErrorUncaught)
      else if parsed.value in geneticCodes then
        Done(Accepted(IntText(parsed.value)), TtSet(parsed.value, geneticCodes[parsed.value]))
      else Done(Rejected, TtUnknown)
  }

  /**
   * The chewBBACA version: a single value looked up in the list of compatible versions.
   * The lookup raises for an unknown version, so the "unsuitable version" message is
   * never produced.
   */
  function ValidateCv(e: Entry, versions: seq<string>): (r: Validation)
    ensures r.Raised? <==> Only(e).Some? && (Only(e).value.PyNone? || Only(e).value.text !in versions)
    ensures Passes(r) <==> Only(e).Some? && Only(e).value.Str? && Only(e).value.text in versions && Only(e).value.text != []
    ensures r.Done? && r.valid.Accepted? ==> Only(e).Some? && Only(e).value.Str? && r.valid.value == Verbatim(Only(e).value.text)
    ensures r != Done(Rejected, CvUnsuitable)
    ensures Len(e) != 1 ==> r == Done(Rejected, CvNotSingle)
    ensures Only(e).Some? && Only(e).value.Str? && Only(e).value.text in versions ==>
              r == Done(Accepted(Verbatim(Only(e).value.text)), CvSet(Only(e).value.text))
  {
    match Only(e)
    case None => Done(Rejected, CvNotSingle)
    case Some(PyNone) => Raised(ValueErrorUncaught)
    case Some(Str(text, _, _)) =>
      if text in versions then Done(Accepted(Verbatim(text)), CvSet(text))
      else Raised(ValueErrorUncaught)
  }

  /** The first recorded value of a clustering parameter (only that one is read). */
  function First(e: Entry): RawValue
    requires e.Listed? && e.values != []
  {
    e.values[0]
  }

  /** The clustering word size: absent (no clustering) or a first value of at least 4. */
  function ValidateWs(e: Entry): (r: Validation)
    ensures r.Raised? <==> e == Listed([]) || (e.Listed? && e.values != [] && First(e).PyNone?)
    ensures Passes(r) <==> e.Missing? || (e.Listed? && e.values != [] && First(e).Str? && First(e).asInt.Some? && First(e).asInt.value >= 4)
    ensures e.Missing? ==> r == Done(Accepted(NoneText), NoClustering)
    ensures r.Done? && r.valid.Accepted? && e.Listed? ==>
              e.values != [] && First(e).Str? && First(e).asInt.Some? && r.valid.value == IntText(First(e).asInt.value)
    ensures e.Listed? && e.values != [] && First(e).Str? && First(e).asInt.Some? && First(e).asInt.value >= 4 ==>
              r == Done(Accepted(IntText(First(e).asInt.value)), WsSet(First(e).asInt.value))
    ensures e.Listed? && e.values != [] && First(e).Str? && !(First(e).asInt.Some? && First(e).asInt.value >= 4) ==>
              r == Done(Rejected, WsInvalid)
  {
    match e
    case Missing => Done(Accepted(NoneText), NoClustering)
    case Listed(vs) =>
      if vs == [] then Raised(IndexErrorOnEmpty)
      else match vs[0]
        case PyNone => Raised(TypeErrorOnNone)
        case Str(_, parsed, _) =>
          if parsed.Some? && parsed.value >= 4 then Done(Accepted(IntText(parsed.value)), WsSet(parsed.value))
          else Done(Rejected, WsInvalid)
  }

  /** The clustering similarity: absent, or a first value that is not negative (no upper bound is checked). */
  function ValidateCs(e: Entry): (r: Validation)
    ensures r.Raised? <==> e == Listed([]) || (e.Listed? && e.values != [] && First(e).PyNone?)
    ensures Passes(r) <==> e.Missing? || (e.Listed? && e.values != [] && First(e).Str? && First(e).asFloat.Some? && AtLeast(First(e).asFloat.value, 0.0))
    ensures e.Missing? ==> r == Done(Accepted(NoneText), NoClustering)
    ensures r.Done? && r.valid.Accepted? && e.Listed? ==>
              e.values != [] && First(e).Str? && First(e).asFloat.Some? && r.valid.value == FloatText(First(e).asFloat.value)
    ensures e.Listed? && e.values != [] && First(e).Str? && First(e).asFloat.Some? && AtLeast(First(e).asFloat.value, 0.0) ==>
              r == Done(Accepted(FloatText(First(e).asFloat.value)), CsSet(First(e).asFloat.value))
    ensures e.Listed? && e.values != [] && First(e).Str? && !(First(e).asFloat.Some? && AtLeast(First(e).asFloat.value, 0.0)) ==>
              r == Done(Rejected, CsInvalid)
  {
    match e
    case Missing => Done(Accepted(NoneText), NoClustering)
    case Listed(vs) =>
      if vs == [] then Raised(IndexErrorOnEmpty)
      else match vs[0]
        case PyNone => Raised(TypeErrorOnNone)
        case Str(_, _, parsed) =>
          if parsed.Some? && AtLeast(parsed.value, 0.0) then Done(Accepted(FloatText(parsed.value)), CsSet(parsed.value))
          else Done(Rejected, CsInvalid)
  }

  /** A clustering filter (representative or intra-cluster): absent, or a first value in [0, 1]. */
  function ValidateFilter(e: Entry, filter: Filter): (r: Validation)
    ensures r.Raised? <==> e == Listed([]) || (e.Listed? && e.values != [] && First(e).PyNone?)
    ensures Passes(r) <==> e.Missing? || (e.Listed? && e.values != [] && First(e).Str? && First(e).asFloat.Some?
                                          && AtLeast(First(e).asFloat.value, 0.0) && AtMost(First(e).asFloat.value, 1.0))
    ensures e.Missing? ==> r == Done(Accepted(NoneText), NoClustering)
    ensures r.Done? && r.valid.Accepted? && e.Listed? ==>
              e.values != [] && First(e).Str? && First(e).asFloat.Some? && r.valid.value == FloatText(First(e).asFloat.value)
    ensures e.Listed? && e.values != [] && First(e).Str? && First(e).asFloat.Some?
              && AtLeast(First(e).asFloat.value, 0.0) && AtMost(First(e).asFloat.value, 1.0) ==>
              r == Done(Accepted(FloatText(First(e).asFloat.value)), FilterSet(filter, First(e).asFloat.value))
    ensures e.Listed? && e.values != [] && First(e).Str?
              && !(First(e).asFloat.Some? && AtLeast(First(e).asFloat.value, 0.0) && AtMost(First(e).asFloat.value, 1.0)) ==>
              r == Done(Rejected, FilterInvalid(filter))
  {
    match e
    case Missing => Done(Accepted(NoneText), NoClustering)
    case Listed(vs) =>
      if vs == [] then Raised(IndexErrorOnEmpty)
      else match vs[0]
        case PyNone => Raised(TypeErrorOnNone)
        case Str(_, _, parsed) =>
          if parsed.Some? && AtLeast(parsed.value, 0.0) && AtMost(parsed.value, 1.0) then
            Done(Accepted(FloatText(parsed.value)), FilterSet(filter, parsed.value))
          else Done(Rejected, FilterInvalid(filter))
  }

  /** Lines 353-378: the representative filter, a fraction in [0, 1] or absent. */
  function ValidateRf(e: Entry): (r: Validation)
    ensures r.Raised? <==> e == Listed([]) || (e.Listed? && e.values != [] && First(e).PyNone?)
    ensures r.Done? && !Passes(r) ==> r.message == FilterInvalid(Representative)
    ensures Passes(r) && e.Listed? && e.values != [] && First(e).Str? && First(e).asFloat.Some? ==>
              r.message == FilterSet(Representative, First(e).asFloat.value)
  {
    ValidateFilter(e, Representative)
  }

  /** Lines 381-405: the intra-cluster filter, checked like the representative one. */
  function ValidateIf(e: Entry): (r: Validation)
    ensures r.Raised? <==> e == Listed([]) || (e.Listed? && e.values != [] && First(e).PyNone?)
    ensures r.Done? && !Passes(r) ==> r.message == FilterInvalid(IntraCluster)
    ensures Passes(r) && e.Listed? && e.values != [] && First(e).Str? && First(e).asFloat.Some? ==>
              r.message == FilterSet(IntraCluster, First(e).asFloat.value)
  {
    ValidateFilter(e, IntraCluster)
  }

  /** The configuration keys, in the order the validators run and their messages are printed. */
  const Keys: seq<string> := [
    "prodigal_training_file", "bsr", "minimum_locus_length", "translation_table",
    "size_threshold", "chewBBACA_version", "word_size", "cluster_sim",
    "representative_filter", "intraCluster_filter"]

  /** What the validators need besides the configuration: the directory listing, the hash of its training file, and the two constant tables. */
  datatype Environment = Environment(
    listing: seq<string>, trainingHash: string,
    geneticCodes: map<int, string>, versions: seq<string>)

  /** The ten validations, in the order the gate lists them. */
  function Validations(c: Configs, env: Environment): (vs: seq<Validation>)
    ensures |vs| == |Keys| == 10
  {
    [ ValidatePtf(Get(c, Keys[0]), env.listing, env.trainingHash),
      ValidateBsr(Get(c, Keys[1])),
      ValidateMsl(Get(c, Keys[2])),
      ValidateTt(Get(c, Keys[3]), env.geneticCodes),
      ValidateSt(Get(c, Keys[4])),
      ValidateCv(Get(c, Keys[5]), env.versions),
      ValidateWs(Get(c, Keys[6])),
      ValidateCs(Get(c, Keys[7])),
      ValidateRf(Get(c, Keys[8])),
      ValidateIf(Get(c, Keys[9])) ]
  }

  /** Index of the first validation that raised, or `|vs|`. */
  function FirstRaised(vs: seq<Validation>): (k: nat)
    ensures k <= |vs|
    ensures forall i :: 0 <= i < k ==> vs[i].Done?
    ensures k < |vs| ==> vs[k].Raised?
  {
    if vs == [] then 0
    else if vs[0].Raised? then 0
    else 1 + FirstRaised(vs[1..])
  }

  datatype GateOutcome =
    | Crashed(fault: Fault)
    | Halted(messages: seq<Message>)
    | Proceed(messages: seq<Message>, params: map<string, Canon>)

  /** Every validation accepted a value. */
  predicate AllAccepted(vs: seq<Validation>) {
    forall i :: 0 <= i < |vs| ==> vs[i].Done? && vs[i].valid.Accepted?
  }

  /** The ten keys are distinct, and none of them is 'name'. */
  lemma KeysDistinct()
    ensures forall i, j :: 0 <= i < j < |Keys| ==> Keys[i] != Keys[j]
    ensures "name" !in Keys
  {
    forall i, j | 0 <= i < j < |Keys|
      ensures Keys[i] != Keys[j]
    {
      if |Keys[i]| == |Keys[j]| {
        assert Keys[i][0] != Keys[j][0];
      }
    }
  }

  /** The parameters sent with the schema: the ten accepted values and the description as 'name'. */
  function Params(vs: seq<Validation>, desc: string): (p: map<string, Canon>)
    requires |vs| == 10 && AllAccepted(vs)
    ensures forall k :: k in p <==> k in Keys || k == "name"
    ensures p["name"] == Verbatim(desc)
    ensures forall i :: 0 <= i < 10 ==> p[Keys[i]] == vs[i].valid.value
  {
    KeysDistinct();
    (map i | 0 <= i < 10 :: Keys[i] := vs[i].valid.value)["name" := Verbatim(desc)]
  }

  /**
   * The gate over the ten validation results: every message is printed (in validator
   * order), and the run proceeds exactly when all ten results are truthy. A validator
   * that raised ends the run before anything is printed.
   */
  function Decide(vs: seq<Validation>, desc: string): (g: GateOutcome)
    requires |vs| == 10
    ensures g.Crashed? <==> exists i :: 0 <= i < 10 && vs[i].Raised?
    ensures !g.Crashed? ==> |g.messages| == 10 && forall i :: 0 <= i < 10 ==> g.messages[i] == vs[i].message
    ensures g.Proceed? <==> forall i :: 0 <= i < 10 ==> Passes(vs[i])
    ensures g.Proceed? ==> AllAccepted(vs) && g.params == Params(vs, desc)
  {
    var k := FirstRaised(vs);
    if k < |vs| then Crashed(vs[k].fault)
    else
      assert forall i :: 0 <= i < 10 ==> vs[i].Done?;
      var messages := seq(10, i requires 0 <= i < 10 => vs[i].message);
      if forall i | 0 <= i < 10 :: Passes(vs[i]) then
        assert AllAccepted(vs);
        Proceed(messages, Params(vs, desc))
      else Halted(messages)
  }

  /** `main`'s validation step: run the ten validators on the snapshot and apply the gate. */
  function Gate(c: Configs, env: Environment, desc: string): (g: GateOutcome)
    ensures g.Crashed? <==> exists i :: 0 <= i < 10 && Validations(c, env)[i].Raised?
    ensures g.Proceed? <==> forall i :: 0 <= i < 10 ==> Passes(Validations(c, env)[i])
    ensures g.Proceed? ==> |TrainingFiles(env.listing)| == 1
    ensures g.Proceed? ==>
              "name" in g.params && g.params["name"] == Verbatim(desc)
              && Keys[0] in g.params && g.params[Keys[0]] == Verbatim(env.trainingHash)
  {
    var vs := Validations(c, env);
    var g := Decide(vs, desc);
    assert g.Proceed? ==> Passes(vs[0]);
    g
  }

  /** A missing BSR, minimum length or size threshold stops the run. */
  lemma MissingRequiredKeyHalts(c: Configs, env: Environment, desc: string, key: string)
    requires key in {"bsr", "minimum_locus_length", "size_threshold"} && key !in c
    ensures !Gate(c, env, desc).Proceed?
  {
    var vs := Validations(c, env);
    assert Gate(c, env, desc) == Decide(vs, desc);
    if key == "bsr" { assert !Passes(vs[1]); }
    else if key == "minimum_locus_length" { assert !Passes(vs[2]); }
    else { assert !Passes(vs[4]); }
  }

  /** A schema built without clustering passes the four clustering validators as 'None'. */
  lemma ClusteringKeysOptional(c: Configs)
    requires forall i :: 6 <= i < 10 ==> Keys[i] !in c
    ensures ValidateWs(Get(c, Keys[6])) == Done(Accepted(NoneText), NoClustering)
    ensures ValidateCs(Get(c, Keys[7])) == Done(Accepted(NoneText), NoClustering)
    ensures ValidateRf(Get(c, Keys[8])) == Done(Accepted(NoneText), NoClustering)
    ensures ValidateIf(Get(c, Keys[9])) == Done(Accepted(NoneText), NoClustering)
  {
    assert Keys[6] !in c && Keys[7] !in c && Keys[8] !in c && Keys[9] !in c;
  }

  function One(raw: string, f: Float): Entry {
    Listed([Str(raw, None, Some(f))])
  }

  /** A BSR of 1.5 or 0 is rejected, 0.6 accepted; a negative size threshold is rejected, a `None` one accepted. */
  lemma ThresholdExamples()
    ensures !Passes(ValidateBsr(One("1.5", Finite(1.5))))
    ensures !Passes(ValidateBsr(One("0", Finite(0.0))))
    ensures ValidateBsr(One("0.6", Finite(0.6))) == Done(Accepted(FloatText(Finite(0.6))), BsrSet(Finite(0.6)))
    ensures !Passes(ValidateSt(One("-0.2", Finite(-0.2))))
    ensures ValidateSt(Listed([PyNone])) == Done(Accepted(NoneText), StWithout)
    ensures !Passes(ValidateSt(Missing))
    ensures Passes(ValidateCs(One("1.5", Finite(1.5))))
  {
  }
}

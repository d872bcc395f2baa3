/**
 * Resuming an interrupted upload: comparing the local schema with the copy the
 * registry already holds, locus by locus, to find what is still to be sent, and
 * marking the loci the registry already knows so that they are not created again.
 * File contents and registry answers are inputs: `localSeqs` and `remoteSeqs` give
 * the distinct allele sequences of a locus file, locally and in the registry.
 */
module Reconcile {
  import opened Wrappers
  import Text
  import Annotation

  // ---------------------------------------------------------------------------
  // Sets and subsequences

  function ToSet(s: seq<string>): (r: set<string>)
    ensures forall x :: x in r <==> x in s
  {
    set x | x in s
  }

  /** `r` is `s` with some elements left out, in the same order. */
  ghost predicate IsSubsequence<T>(r: seq<T>, s: seq<T>)
    decreases |s|
  {
    r == [] ||
    (s != [] &&
     ((r[|r| - 1] == s[|s| - 1] && IsSubsequence(r[..|r| - 1], s[..|s| - 1]))
      || IsSubsequence(r, s[..|s| - 1])))
  }

  /** Appending one element to a list keeps every subsequence, with or without that element. */
  lemma SubsequenceExtend<T>(r: seq<T>, s: seq<T>, x: T)
    requires IsSubsequence(r, s)
    ensures IsSubsequence(r + [x], s + [x]) && IsSubsequence(r, s + [x])
  {
    assert (r + [x])[..|r|] == r;
    assert (s + [x])[..|s|] == s;
  }

  lemma {:induction false} SubsetCardinality<T>(a: set<T>, b: set<T>)
    requires a <= b
    ensures |a| <= |b|
    decreases a
  {
    if a != {} {
      var x :| x in a;
      SubsetCardinality(a - {x}, b - {x});
    }
  }

  lemma ProperSubsetCardinality<T>(a: set<T>, b: set<T>)
    requires a <= b && a != b
    ensures |a| < |b|
  {
    var x :| x in b && x !in a;
    SubsetCardinality(a, b - {x});
  }

  // ---------------------------------------------------------------------------
  // The loci of the registry's copy

  /** One entry of the registry's locus list for the schema. */
  datatype RemoteLocus = RemoteLocus(file: string, uri: string, name: string)

  /** The locus list, or a reply carrying a message instead (no loci yet). */
  datatype LociReply = LociMessage | LociList(loci: seq<RemoteLocus>)

  function RemoteEntries(reply: LociReply): seq<RemoteLocus> {
    if reply.LociList? then reply.loci else []
  }

  /** The original file names of the registry's loci, in the order listed. */
  function RemoteNames(reply: LociReply): (names: seq<string>)
    ensures |names| == |RemoteEntries(reply)|
    ensures forall i :: 0 <= i < |names| ==> names[i] == RemoteEntries(reply)[i].file
  {
    var entries := RemoteEntries(reply);
    seq(|entries|, i requires 0 <= i < |entries| => entries[i].file)
  }

  /** The position of the last entry for file `f`, or -1 when there is none. */
  function LastEntry(entries: seq<RemoteLocus>, f: string): (k: int)
    ensures -1 <= k < |entries|
    ensures k >= 0 ==> entries[k].file == f
    ensures forall j :: k < j < |entries| ==> entries[j].file != f
  {
    if entries == [] then -1
    else if entries[|entries| - 1].file == f then |entries| - 1
    else LastEntry(entries[..|entries| - 1], f)
  }

  /** File name to locus URI; when a name is listed twice the later URI is kept. */
  function UriIndex(entries: seq<RemoteLocus>): (m: map<string, string>)
    ensures forall f :: f in m <==> LastEntry(entries, f) >= 0
    ensures forall f :: f in m ==> m[f] == entries[LastEntry(entries, f)].uri
  {
    if entries == [] then map[]
    else
      var init := entries[..|entries| - 1];
      var last := entries[|entries| - 1];
      var m := UriIndex(init);
      assert forall f :: f != last.file ==> LastEntry(entries, f) == LastEntry(init, f);
      m[last.file := last.uri]
  }

  /** Lines 966-974: the list of remote file names and the name-to-URI map, built in one pass. */
  method IndexRemoteLoci(reply: LociReply) returns (names: seq<string>, uris: map<string, string>)
    ensures names == RemoteNames(reply)
    ensures uris == UriIndex(RemoteEntries(reply))
  {
    names, uris := [], map[];
    if reply.LociList? {
      var entries := reply.loci;
      for i := 0 to |entries|
        invariant names == RemoteNames(LociList(entries[..i]))
        invariant uris == UriIndex(entries[..i])
      {
        assert entries[..i + 1][..i] == entries[..i];
        names := names + [entries[i].file];
        uris := uris[entries[i].file := entries[i].uri];
      }
      assert entries[..|entries|] == entries;
    }
  }

  /** Every listed name has a URI in the index, and only listed names do. */
  lemma IndexCoversNames(reply: LociReply)
    ensures forall f :: f in UriIndex(RemoteEntries(reply)) <==> f in RemoteNames(reply)
  {
    var entries := RemoteEntries(reply);
    var names := RemoteNames(reply);
    forall f
      ensures f in UriIndex(entries) <==> f in names
    {
      if f in names {
        var i :| 0 <= i < |names| && names[i] == f;
        assert entries[i].file == f;
      }
      if LastEntry(entries, f) >= 0 {
        assert names[LastEntry(entries, f)] == f;
      }
    }
  }

  // ---------------------------------------------------------------------------
  // The loci-set check

  datatype LociCheck =
    | ForeignLoci          // the registry has loci the local schema lacks
    | MoreLoci             // the registry has more loci than the local schema
    | FewerLoci(absent: set<string>)
    | SameLoci

  /** Lines 984-997: compare the two sets of locus file names. */
  function CheckLociSets(local: seq<string>, remote: seq<string>): (r: LociCheck)
    ensures r.ForeignLoci? <==> !(ToSet(remote) <= ToSet(local))
    ensures !r.MoreLoci?
    ensures r.FewerLoci? ==> r.absent == ToSet(local) - ToSet(remote) && r.absent != {}
    ensures r.SameLoci? <==> ToSet(local) == ToSet(remote)
  {
    var localSet, remoteSet := ToSet(local), ToSet(remote);
    if remoteSet - localSet != {} then ForeignLoci
    else
      assert remoteSet <= localSet by {
        forall x | x in remoteSet ensures x in localSet {
          assert x !in remoteSet - localSet;
        }
      }
      SubsetCardinality(remoteSet, localSet);
      if |remoteSet| > |localSet| then MoreLoci
      else if |remoteSet| < |localSet| then
        assert localSet - remoteSet != {} by {
          if localSet - remoteSet == {} {
            assert localSet <= remoteSet;
            SubsetCardinality(localSet, remoteSet);
          }
        }
        FewerLoci(localSet - remoteSet)
      else
        assert remoteSet != localSet ==> |remoteSet| < |localSet| by {
          if remoteSet != localSet {
            ProperSubsetCardinality(remoteSet, localSet);
          }
        }
        SameLoci
  }

  // ---------------------------------------------------------------------------
  // Which loci are still to be sent

  datatype Divergence = MoreRemoteSequences | ForeignRemoteSequences

  /** The run stops at the first shared locus whose registry copy is not a subset of the local one. */
  datatype Offence = Offence(reason: Divergence, locus: string)

  datatype Delta = Diverged(offence: Offence) | Upload(loci: seq<string>)

  /** Lines 89-98: the two checks on one shared locus, in the order the code makes them. */
  function LocusDivergence(localSet: set<string>, remoteSet: set<string>): (r: Option<Divergence>)
    ensures r.None? <==> remoteSet <= localSet
    ensures r == Some(MoreRemoteSequences) <==> |remoteSet| > |localSet|
  {
    assert remoteSet <= localSet ==> |remoteSet| <= |localSet| by {
      if remoteSet <= localSet {
        SubsetCardinality(remoteSet, localSet);
      }
    }
    if |remoteSet| > |localSet| then Some(MoreRemoteSequences)
    else if remoteSet - localSet != {} then Some(ForeignRemoteSequences)
    else
      assert remoteSet <= localSet by {
        forall x | x in remoteSet ensures x in localSet {
          assert x !in remoteSet - localSet;
        }
      }
      None
  }

  predicate Shared(x: string, remote: seq<string>) {
    x in remote
  }

  predicate Conforms(x: string, remote: seq<string>, localSeqs: string -> set<string>,
                     remoteSeqs: string -> set<string>) {
    Shared(x, remote) ==> remoteSeqs(x) <= localSeqs(x)
  }

  /** The first local locus that makes the run stop, if any. */
  function FirstOffence(local: seq<string>, remote: seq<string>, localSeqs: string -> set<string>,
                        remoteSeqs: string -> set<string>): (r: Option<Offence>)
    ensures r.None? <==> forall i :: 0 <= i < |local| ==> Conforms(local[i], remote, localSeqs, remoteSeqs)
    ensures r.Some? ==>
              exists k :: 0 <= k < |local| && local[k] == r.value.locus && Shared(local[k], remote)
                          && LocusDivergence(localSeqs(local[k]), remoteSeqs(local[k])) == Some(r.value.reason)
                          && forall j :: 0 <= j < k ==> Conforms(local[j], remote, localSeqs, remoteSeqs)
  {
    if local == [] then None
    else
      var init := local[..|local| - 1];
      var x := local[|local| - 1];
      var r := FirstOffence(init, remote, localSeqs, remoteSeqs);
      assert forall i :: 0 <= i < |init| ==> init[i] == local[i];
      if r.Some? then r
      else if Shared(x, remote) && LocusDivergence(localSeqs(x), remoteSeqs(x)).Some? then
        Some(Offence(LocusDivergence(localSeqs(x), remoteSeqs(x)).value, x))
      else None
  }

  lemma {:induction false} OffencePersists(local: seq<string>, remote: seq<string>, localSeqs: string -> set<string>,
                                           remoteSeqs: string -> set<string>, n: nat)
    requires n <= |local|
    requires FirstOffence(local[..n], remote, localSeqs, remoteSeqs).Some?
    ensures FirstOffence(local, remote, localSeqs, remoteSeqs) == FirstOffence(local[..n], remote, localSeqs, remoteSeqs)
    decreases |local| - n
  {
    if n < |local| {
      assert local[..n + 1][..n] == local[..n];
      OffencePersists(local, remote, localSeqs, remoteSeqs, n + 1);
    } else {
      assert local[..n] == local;
    }
  }

  /** Local loci the registry does not have, in local order. */
  function Missing(local: seq<string>, remote: seq<string>): (r: seq<string>)
    ensures forall x :: x in r <==> x in local && !Shared(x, remote)
    ensures IsSubsequence(r, local)
  {
    if local == [] then []
    else
      var init := local[..|local| - 1];
      var x := local[|local| - 1];
      assert local == init + [x];
      var rest := Missing(init, remote);
      if !Shared(x, remote) then rest + [x] else rest
  }

  /** Shared loci whose local file has sequences the registry lacks, in local order. */
  function Incomplete(local: seq<string>, remote: seq<string>, localSeqs: string -> set<string>,
                      remoteSeqs: string -> set<string>): (r: seq<string>)
    ensures forall x :: x in r <==> x in local && Shared(x, remote) && !(localSeqs(x) <= remoteSeqs(x))
    ensures IsSubsequence(r, local)
  {
    if local == [] then []
    else
      var init := local[..|local| - 1];
      var x := local[|local| - 1];
      assert local == init + [x];
      var rest := Incomplete(init, remote, localSeqs, remoteSeqs);
      if Shared(x, remote) && !(localSeqs(x) <= remoteSeqs(x)) then rest + [x] else rest
  }

  /** What `determine_upload` decides: stop at the first diverging locus, or the missing then the incomplete loci. */
  function Reconciled(local: seq<string>, remote: seq<string>, localSeqs: string -> set<string>,
                      remoteSeqs: string -> set<string>): (d: Delta)
    ensures d.Diverged? <==> exists i :: 0 <= i < |local| && !Conforms(local[i], remote, localSeqs, remoteSeqs)
    ensures d.Upload? ==> d.loci == Missing(local, remote) + Incomplete(local, remote, localSeqs, remoteSeqs)
  {
    match FirstOffence(local, remote, localSeqs, remoteSeqs)
    case Some(offence) => Diverged(offence)
    case None => Upload(Missing(local, remote) + Incomplete(local, remote, localSeqs, remoteSeqs))
  }

  /** Lines 68-116: one pass over the local loci, stopping at the first divergence. */
  method DetermineUpload(local: seq<string>, remote: seq<string>, localSeqs: string -> set<string>,
                         remoteSeqs: string -> set<string>) returns (d: Delta)
    ensures d == Reconciled(local, remote, localSeqs, remoteSeqs)
  {
    var missing, incomplete := [], [];
    for i := 0 to |local|
      invariant FirstOffence(local[..i], remote, localSeqs, remoteSeqs).None?
      invariant missing == Missing(local[..i], remote)
      invariant incomplete == Incomplete(local[..i], remote, localSeqs, remoteSeqs)
    {
      var locus := local[i];
      assert local[..i + 1][..i] == local[..i];
      if locus in remote {
        var localSet, remoteSet := localSeqs(locus), remoteSeqs(locus);
        if |remoteSet| > |localSet| {
          OffencePersists(local, remote, localSeqs, remoteSeqs, i + 1);
          return Diverged(Offence(MoreRemoteSequences, locus));
        }
        if remoteSet - localSet != {} {
          OffencePersists(local, remote, localSeqs, remoteSeqs, i + 1);
          return Diverged(Offence(ForeignRemoteSequences, locus));
        }
        if localSet - remoteSet != {} {
          incomplete := incomplete + [locus];
        } else {
          assert localSet <= remoteSet by {
            forall x | x in localSet ensures x in remoteSet {
              assert x !in localSet - remoteSet;
            }
          }
        }
      } else {
        missing := missing + [locus];
      }
    }
    assert local[..|local|] == local;
    d := Upload(missing + incomplete);
  }

  /** A registry copy that already holds every local locus with the same sequences leaves nothing to send. */
  lemma IdenticalSchemasLeaveNothing(local: seq<string>, remote: seq<string>, localSeqs: string -> set<string>,
                                     remoteSeqs: string -> set<string>)
    requires forall x :: x in local ==> x in remote && localSeqs(x) == remoteSeqs(x)
    ensures Reconciled(local, remote, localSeqs, remoteSeqs) == Upload([])
  {
  }

  /**
   * The missing loci are the local ones absent from the registry: the set the loci
   * check reports when the registry has fewer, and none when it has the same.
   */
  lemma MissingIsAbsent(local: seq<string>, remote: seq<string>)
    ensures ToSet(Missing(local, remote)) == ToSet(local) - ToSet(remote)
    ensures CheckLociSets(local, remote).FewerLoci? ==>
              ToSet(Missing(local, remote)) == CheckLociSets(local, remote).absent && Missing(local, remote) != []
    ensures CheckLociSets(local, remote).SameLoci? ==> Missing(local, remote) == []
  {
    var m := Missing(local, remote);
    if m != [] {
      assert m[0] in ToSet(m);
    }
  }

  // ---------------------------------------------------------------------------
  // Marking the loci to resume

  /** An annotated locus, with the registry URI of the locus when it already exists there. */
  datatype LocusRecord = LocusRecord(ann: Annotation.Annotated, existing: Option<string>)

  function Basename(path: string): string {
    Text.LastSegment(path, '/')
  }

  /** Some name to upload occurs somewhere in the path. */
  predicate Mentions(upload: seq<string>, path: string) {
    exists u :: u in upload && Text.IsSubstring(u, path)
  }

  /** Line 1011 as written: keep an annotated locus when a name to upload occurs in its path. */
  function KeepMentioned(anns: seq<Annotation.Annotated>, upload: seq<string>): (r: seq<Annotation.Annotated>)
    ensures forall a :: a in r <==> a in anns && Mentions(upload, a.locus)
    ensures IsSubsequence(r, anns)
  {
    if anns == [] then []
    else
      var init := anns[..|anns| - 1];
      var a := anns[|anns| - 1];
      assert anns == init + [a];
      var rest := KeepMentioned(init, upload);
      SubsequenceExtend(rest, init, a);
      if Mentions(upload, a.locus) then rest + [a] else rest
  }

  /** The filter as intended: keep an annotated locus whose file name is one to upload. */
  function KeepUploaded(anns: seq<Annotation.Annotated>, upload: seq<string>): (r: seq<Annotation.Annotated>)
    ensures forall a :: a in r <==> a in anns && Basename(a.locus) in upload
    ensures IsSubsequence(r, anns)
  {
    if anns == [] then []
    else
      var init := anns[..|anns| - 1];
      var a := anns[|anns| - 1];
      assert anns == init + [a];
      var rest := KeepUploaded(init, upload);
      SubsequenceExtend(rest, init, a);
      if Basename(a.locus) in upload then rest + [a] else rest
  }

  /** A file name is a suffix of its path, so the intended filter keeps nothing the written one drops. */
  lemma KeepUploadedWithinMentioned(anns: seq<Annotation.Annotated>, upload: seq<string>)
    ensures forall a :: a in KeepUploaded(anns, upload) ==> a in KeepMentioned(anns, upload)
  {
    forall a | a in KeepUploaded(anns, upload)
      ensures Mentions(upload, a.locus)
    {
      BasenameMentioned(upload, a.locus);
    }
  }

  lemma BasenameMentioned(upload: seq<string>, path: string)
    requires Basename(path) in upload
    ensures Mentions(upload, path)
  {
    var name := Basename(path);
    var k := |path| - |name|;
    assert path[k..k + |name|] == name;
    assert Text.OccursAt(path, name, k);
    assert Text.IsSubstring(name, path);
  }

  /**
   * The written filter also keeps a locus that has nothing left to upload when the
   * file name of a locus to upload ends its own: with `b.fasta` to upload,
   * `schema/ab.fasta` is kept too.
   */
  lemma MentionedKeepsFinishedLocus(dir: string, extra: string, name: string)
    requires extra != [] && '/' !in extra + name
    ensures var path := dir + "/" + extra + name;
            Mentions([name], path) && Basename(path) !in [name]
  {
    var path := dir + "/" + extra + name;
    assert path == dir + ['/'] + (extra + name);
    Text.LastSegmentAppend(dir, '/', extra + name);
    var k := |dir| + 1 + |extra|;
    assert path[k..k + |name|] == name;
    assert Text.OccursAt(path, name, k);
    assert Text.IsSubstring(name, path);
  }

  /** The record of one kept locus: with the registry URI when its file name is a registry locus. */
  function Mark(ann: Annotation.Annotated, uris: map<string, string>): (r: LocusRecord)
    ensures r.ann == ann
    ensures r.existing.Some? <==> Basename(ann.locus) in uris
    ensures r.existing.Some? ==> r.existing.value == uris[Basename(ann.locus)]
  {
    var name := Basename(ann.locus);
    LocusRecord(ann, if name in uris then Some(uris[name]) else None)
  }

  function Resumed(anns: seq<Annotation.Annotated>, uris: map<string, string>): (r: seq<LocusRecord>)
    ensures |r| == |anns|
    ensures forall i :: 0 <= i < |r| ==> r[i] == Mark(anns[i], uris)
  {
    seq(|anns|, i requires 0 <= i < |anns| => Mark(anns[i], uris))
  }

  /** Lines 1015-1017: append the registry URI to each kept locus the registry already has. */
  method MarkResumed(anns: seq<Annotation.Annotated>, uris: map<string, string>) returns (recs: seq<LocusRecord>)
    ensures recs == Resumed(anns, uris)
  {
    recs := [];
    for r := 0 to |anns|
      invariant recs == Resumed(anns[..r], uris)
    {
      var name := Basename(anns[r].locus);
      var existing := if name in uris then Some(uris[name]) else None;
      var rec := LocusRecord(anns[r], existing);
      assert rec == Mark(anns[r], uris);
      assert anns[..r + 1] == anns[..r] + [anns[r]];
      recs := recs + [rec];
    }
    assert anns[..|anns|] == anns;
  }

  /**
   * After a reconciliation that found something to send, a kept locus is marked as
   * existing exactly when it is one of the incomplete loci: the missing ones are new.
   */
  lemma ResumedMeansIncomplete(local: seq<string>, remote: seq<string>, localSeqs: string -> set<string>,
                               remoteSeqs: string -> set<string>, reply: LociReply,
                               anns: seq<Annotation.Annotated>, rec: LocusRecord)
    requires remote == RemoteNames(reply)
    requires Reconciled(local, remote, localSeqs, remoteSeqs).Upload?
    requires rec in Resumed(KeepUploaded(anns, Reconciled(local, remote, localSeqs, remoteSeqs).loci),
                            UriIndex(RemoteEntries(reply)))
    ensures rec.existing.Some? <==> Basename(rec.ann.locus) in Incomplete(local, remote, localSeqs, remoteSeqs)
  {
    var upload := Reconciled(local, remote, localSeqs, remoteSeqs).loci;
    var kept := KeepUploaded(anns, upload);
    var recs := Resumed(kept, UriIndex(RemoteEntries(reply)));
    var i :| 0 <= i < |recs| && recs[i] == rec;
    assert kept[i] in kept;
    IndexCoversNames(reply);
  }

  /**
   * With the filter as written, only one direction survives: a kept incomplete locus is
   * still marked as existing, but a kept locus the registry already holds in full is
   * marked as existing too (MentionedKeepsFinishedLocus exhibits one).
   */
  lemma MentionedIncompleteIsMarked(local: seq<string>, remote: seq<string>, localSeqs: string -> set<string>,
                                    remoteSeqs: string -> set<string>, reply: LociReply,
                                    anns: seq<Annotation.Annotated>, rec: LocusRecord)
    requires remote == RemoteNames(reply)
    requires Reconciled(local, remote, localSeqs, remoteSeqs).Upload?
    requires rec in Resumed(KeepMentioned(anns, Reconciled(local, remote, localSeqs, remoteSeqs).loci),
                            UriIndex(RemoteEntries(reply)))
    ensures Basename(rec.ann.locus) in Incomplete(local, remote, localSeqs, remoteSeqs) ==> rec.existing.Some?
    ensures rec.existing.Some? <==> Basename(rec.ann.locus) in remote
  {
    var kept := KeepMentioned(anns, Reconciled(local, remote, localSeqs, remoteSeqs).loci);
    var recs := Resumed(kept, UriIndex(RemoteEntries(reply)));
    var i :| 0 <= i < |recs| && recs[i] == rec;
    IndexCoversNames(reply);
  }
}

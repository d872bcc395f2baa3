/**
 * Choosing a protein annotation for a locus from the answers of up to ten UniProt
 * queries, one per allele. The SPARQL endpoint is not modelled: its answers are an
 * input sequence, with `None` where a query raised and was skipped.
 */
module Annotation {
  import opened Wrappers

  /** The name, URL and label (`title`: `label` is a Dafny keyword) `select_name` extracts from one query result. */
  datatype Answer = Answer(name: string, url: string, title: string)

  /** `get_annotation`'s result: the locus and the annotation chosen for it. */
  datatype Annotated = Annotated(locus: string, name: string, title: string, url: string)

  const MaxTries: nat := 10

  /** Names that are kept only until a more informative one turns up. */
  const Unpreferred: seq<string> := ["Uncharacterized protein", "hypothetical protein", "DUF", ""]

  const NotFoundText := "not found"
  const NotFoundUrl := "http://not.found.org"

  predicate Named(reply: Option<Answer>) {
    reply.Some? && reply.value.name != ""
  }

  predicate Preferred(reply: Option<Answer>) {
    reply.Some? && reply.value.name !in Unpreferred
  }

  /** The number of queries that may be sent: at most ten, and no more than there are. */
  function Limit(replies: seq<Option<Answer>>): (n: nat)
    ensures n <= MaxTries && n <= |replies|
    ensures n == MaxTries || n == |replies|
  {
    if |replies| < MaxTries then |replies| else MaxTries
  }

  /** The position of the first named answer among the first `n`, or `n` if there is none. */
  function FirstNamed(replies: seq<Option<Answer>>, n: nat): (i: nat)
    requires n <= |replies|
    ensures i <= n
    ensures i < n ==> Named(replies[i])
    ensures forall j :: 0 <= j < i ==> !Named(replies[j])
  {
    if n == 0 then 0
    else
      var i := FirstNamed(replies, n - 1);
      if i < n - 1 then i
      else if Named(replies[n - 1]) then n - 1
      else n
  }

  /** The position of the first preferred answer among the first `n`, or `n` if there is none. */
  function FirstPreferred(replies: seq<Option<Answer>>, n: nat): (i: nat)
    requires n <= |replies|
    ensures i <= n
    ensures i < n ==> Preferred(replies[i])
    ensures forall j :: 0 <= j < i ==> !Preferred(replies[j])
  {
    if n == 0 then 0
    else
      var i := FirstPreferred(replies, n - 1);
      if i < n - 1 then i
      else if Preferred(replies[n - 1]) then n - 1
      else n
  }

  /** Looking further does not move a preferred answer already found. */
  lemma {:induction false} FirstPreferredStable(replies: seq<Option<Answer>>, a: nat, b: nat)
    requires a <= b <= |replies|
    requires FirstPreferred(replies, a) < a
    ensures FirstPreferred(replies, b) == FirstPreferred(replies, a)
  {
    if b > a {
      FirstPreferredStable(replies, a, b - 1);
    }
  }

  const NoAnswer := Answer("", "", "")

  /**
   * The answer kept after the first `a` queries: the first preferred one if any
   * was seen, otherwise the first named one, otherwise nothing.
   */
  function Kept(replies: seq<Option<Answer>>, a: nat): (r: Answer)
    requires a <= |replies|
    ensures r == NoAnswer || exists i :: 0 <= i < a && replies[i] == Some(r)
    ensures r.name == "" <==> forall i :: 0 <= i < a ==> !Named(replies[i])
    ensures FirstPreferred(replies, a) < a ==> r == replies[FirstPreferred(replies, a)].value
    ensures FirstPreferred(replies, a) == a && FirstNamed(replies, a) < a ==> r == replies[FirstNamed(replies, a)].value
    ensures FirstNamed(replies, a) == a ==> r == NoAnswer
  {
    var p := FirstPreferred(replies, a);
    var q := FirstNamed(replies, a);
    if p < a then replies[p].value
    else if q < a then replies[q].value
    else NoAnswer
  }

  /** The number of queries sent: up to the first preferred answer, else all that may be sent. */
  function QueriesSent(replies: seq<Option<Answer>>): (k: nat)
    ensures k <= Limit(replies)
    ensures 1 <= |replies| ==> 1 <= k
    ensures k < Limit(replies) ==>
              1 <= k && Preferred(replies[k - 1]) && forall j :: 0 <= j < k - 1 ==> !Preferred(replies[j])
    ensures (forall j :: 0 <= j < Limit(replies) ==> !Preferred(replies[j])) ==> k == Limit(replies)
    ensures forall j :: 0 <= j < k - 1 ==> !Preferred(replies[j])
  {
    var n := Limit(replies);
    var p := FirstPreferred(replies, n);
    if p < n then p + 1 else n
  }

  /** Empty fields are replaced by the placeholders the registry accepts. */
  function Fill(locus: string, a: Answer): (r: Annotated)
    ensures r.locus == locus
    ensures r.name != "" && r.title != "" && r.url != ""
    ensures a.name != "" ==> r.name == a.name
    ensures a.title != "" ==> r.title == a.title
    ensures a.url != "" ==> r.url == a.url
    ensures a.name == "" ==> r.name == NotFoundText
    ensures a.title == "" ==> r.title == NotFoundText
    ensures a.url == "" ==> r.url == NotFoundUrl
  {
    Annotated(locus,
              if a.name == "" then NotFoundText else a.name,
              if a.title == "" then NotFoundText else a.title,
              if a.url == "" then NotFoundUrl else a.url)
  }

  /** The annotation `get_annotation` returns for the given answers. */
  function Chosen(locus: string, replies: seq<Option<Answer>>): (r: Annotated)
    ensures var n := Limit(replies);
            var p := FirstPreferred(replies, n);
            p < n ==> r.name == replies[p].value.name && r.name !in Unpreferred
    ensures var n := Limit(replies);
            FirstPreferred(replies, n) == n && FirstNamed(replies, n) < n
            ==> r.name == replies[FirstNamed(replies, n)].value.name
    ensures (forall i :: 0 <= i < Limit(replies) ==> !Named(replies[i])) ==> r.name == NotFoundText
    ensures var n := Limit(replies);
            var p := FirstPreferred(replies, n);
            p < n ==> r == Fill(locus, replies[p].value)
    ensures var n := Limit(replies);
            var q := FirstNamed(replies, n);
            FirstPreferred(replies, n) == n && q < n ==> r == Fill(locus, replies[q].value)
    ensures FirstNamed(replies, Limit(replies)) == Limit(replies) ==> r == Fill(locus, NoAnswer)
  {
    Fill(locus, Kept(replies, Limit(replies)))
  }

  /**
   * Where the search stops: right after the first preferred answer, or at the limit.
   * Either way it has sent `QueriesSent` queries and kept what it would keep at the limit.
   */
  lemma StopPoint(replies: seq<Option<Answer>>, a: nat)
    requires a <= Limit(replies)
    requires FirstPreferred(replies, a) < a || a == Limit(replies)
    requires FirstPreferred(replies, a) < a ==> FirstPreferred(replies, a) == a - 1
    ensures a == QueriesSent(replies)
    ensures Kept(replies, a) == Kept(replies, Limit(replies))
  {
    if FirstPreferred(replies, a) < a {
      FirstPreferredStable(replies, a, Limit(replies));
    }
  }

  /**
   * `get_annotation`'s selection loop: it sends queries in order, keeps the first named
   * answer, replaces it by the first preferred one and stops there, and otherwise stops
   * after ten queries or when they run out. `sent` is the number of queries sent.
   */
  method GetAnnotation(locus: string, replies: seq<Option<Answer>>) returns (ann: Annotated, sent: nat)
    requires 1 <= |replies|
    ensures ann == Chosen(locus, replies)
    ensures sent == QueriesSent(replies)
    ensures 1 <= sent <= MaxTries
  {
    var n := Limit(replies);
    var prevName, prevTitle, prevUrl := "", "", "";
    var found := false;
    var a := 0;
    while !found
      invariant 0 <= a <= n
      invariant Answer(prevName, prevUrl, prevTitle) == Kept(replies, a)
      invariant found <==> FirstPreferred(replies, a) < a || a == n
      invariant FirstPreferred(replies, a) < a ==> FirstPreferred(replies, a) == a - 1
      invariant !found ==> a < n
      decreases n - a
    {
      // a query that raised (`None`) changes nothing
      if replies[a].Some? {
        var answer := replies[a].value;
        if prevName == "" && answer.name != "" {
          prevName, prevTitle, prevUrl := answer.name, answer.title, answer.url;
          if prevName !in Unpreferred {
            found := true;
          }
        } else if prevName in Unpreferred && answer.name !in Unpreferred {
          prevName, prevTitle, prevUrl := answer.name, answer.title, answer.url;
          found := true;
        }
      }
      a := a + 1;
      if a == MaxTries || a == |replies| {
        found := true;
      }
    }
    StopPoint(replies, a);
    if prevName == "" {
      prevName := NotFoundText;
    }
    if prevTitle == "" {
      prevTitle := NotFoundText;
    }
    if prevUrl == "" {
      prevUrl := NotFoundUrl;
    }
    ann := Annotated(locus, prevName, prevTitle, prevUrl);
    sent := a;
  }

  /** Two answer sequences that agree on which answers are named and preferred pick the same positions. */
  lemma {:induction false} SamePositions(r1: seq<Option<Answer>>, r2: seq<Option<Answer>>, n: nat)
    requires n <= |r1| && n <= |r2|
    requires forall j :: 0 <= j < n ==> (Named(r1[j]) <==> Named(r2[j])) && (Preferred(r1[j]) <==> Preferred(r2[j]))
    ensures FirstNamed(r1, n) == FirstNamed(r2, n)
    ensures FirstPreferred(r1, n) == FirstPreferred(r2, n)
  {
    if n > 0 {
      SamePositions(r1, r2, n - 1);
    }
  }

  /**
   * A query that raised is skipped exactly as an answer with an empty name is:
   * neither is ever kept, and neither stops the search.
   */
  lemma FailureLikeEmptyName(locus: string, replies: seq<Option<Answer>>, i: nat, url: string, title: string)
    requires i < |replies|
    ensures var failed := replies[i := None];
            var unnamed := replies[i := Some(Answer("", url, title))];
            Chosen(locus, failed) == Chosen(locus, unnamed) && QueriesSent(failed) == QueriesSent(unnamed)
  {
    var failed := replies[i := None];
    var unnamed := replies[i := Some(Answer("", url, title))];
    var n := Limit(replies);
    assert Limit(failed) == n && Limit(unnamed) == n;
    SamePositions(failed, unnamed, n);
  }
}

/**
 * The string operations the uploader applies to URLs, file names and registry
 * identifiers: Python's `s.split(c)[-1]`, `s.split(sep)[0]`, `s.lstrip('0')`,
 * `int(s)` on decimal digits, `str(n)` and `'%06d' % n`, and the round trips
 * that the upload relies on when it builds a name and later takes it apart.
 */
module Text {
  import opened Wrappers

  /** `sep` occurs in `s` starting at index `k`. */
  predicate OccursAt(s: string, sep: string, k: nat) {
    k + |sep| <= |s| && s[k..k + |sep|] == sep
  }

  /** Python's `sub in s` on two strings. */
  predicate IsSubstring(sub: string, s: string) {
    exists k | 0 <= k <= |s| :: OccursAt(s, sub, k)
  }

  /** The index of the last `c` in `s`, or -1 when `c` does not occur. */
  function LastIndex(s: string, c: char): (k: int)
    ensures -1 <= k < |s|
    ensures k >= 0 ==> s[k] == c
    ensures forall j :: k < j < |s| ==> s[j] != c
  {
    if s == [] then -1
    else if s[|s| - 1] == c then |s| - 1
    else LastIndex(s[..|s| - 1], c)
  }

  /** `s.split(c)[-1]`: what follows the last `c`, or all of `s` when `c` does not occur. */
  function LastSegment(s: string, c: char): (r: string)
    ensures c !in r
    ensures |r| <= |s| && r == s[|s| - |r|..]
    ensures |r| < |s| ==> s[|s| - |r| - 1] == c
  {
    s[LastIndex(s, c) + 1..]
  }

  lemma LastSegmentAppend(a: string, c: char, b: string)
    requires c !in b
    ensures LastSegment(a + [c] + b, c) == b
  {
    var s := a + [c] + b;
    assert s[|a|] == c;
    assert forall j :: |a| < j < |s| ==> s[j] == b[j - |a| - 1];
    assert LastIndex(s, c) == |a|;
    assert s[|a| + 1..] == b;
  }

  lemma LastSegmentWhole(s: string, c: char)
    requires c !in s
    ensures LastSegment(s, c) == s
  {
    assert forall i :: 0 <= i < |s| ==> s[i] != c;
  }

  /** The first index at or after `from` where `sep` occurs in `s`, or `|s|` when there is none. */
  function FirstOccurrence(s: string, sep: string, from: nat): (k: nat)
    requires sep != [] && from <= |s|
    ensures from <= k <= |s|
    ensures forall j: nat :: from <= j < k ==> !OccursAt(s, sep, j)
    ensures k < |s| ==> OccursAt(s, sep, k)
    decreases |s| - from
  {
    if from == |s| || OccursAt(s, sep, from) then from
    else FirstOccurrence(s, sep, from + 1)
  }

  /** `s.split(sep)[0]` for a non-empty `sep`: what precedes the first `sep`, or all of `s`. */
  function PrefixBefore(s: string, sep: string): (r: string)
    requires sep != []
    ensures r <= s
    ensures forall k: nat :: k < |r| ==> !OccursAt(s, sep, k)
    ensures |r| < |s| ==> OccursAt(s, sep, |r|)
  {
    s[..FirstOccurrence(s, sep, 0)]
  }

  /**
   * Appending a separator and splitting on it gives the original back, provided the
   * separator does not already occur in it and its first character does not recur
   * inside it (true of ".zip", "_lengths" and ".fasta").
   */
  lemma PrefixBeforeAppend(s: string, sep: string)
    requires sep != []
    requires forall j :: 1 <= j < |sep| ==> sep[j] != sep[0]
    requires !IsSubstring(sep, s)
    ensures PrefixBefore(s + sep, sep) == s
  {
    var t := s + sep;
    assert t[|s|..|s| + |sep|] == sep;
    forall k: nat | k < |s|
      ensures !OccursAt(t, sep, k)
    {
      if k + |sep| <= |s| {
        assert t[k..k + |sep|] == s[k..k + |sep|];
        assert !OccursAt(s, sep, k);
      } else {
        var j := |s| - k;
        assert t[|s|] == sep[0];
        assert k + |sep| <= |t| && t[k..k + |sep|][j] == t[|s|];
      }
    }
    assert OccursAt(t, sep, |s|);
    var r := PrefixBefore(t, sep);
    assert |r| <= |s|;
    assert r == t[..|r|] == s;
  }

  /** `s.lstrip(c)`. */
  function LStrip(s: string, c: char): (r: string)
    ensures |r| <= |s| && r == s[|s| - |r|..]
    ensures forall i :: 0 <= i < |s| - |r| ==> s[i] == c
    ensures r != [] ==> r[0] != c
  {
    if s != [] && s[0] == c then LStrip(s[1..], c) else s
  }

  predicate IsDigit(ch: char) {
    '0' <= ch <= '9'
  }

  predicate AllDigits(s: string) {
    forall i :: 0 <= i < |s| ==> IsDigit(s[i])
  }

  function DigitValue(ch: char): nat
    requires IsDigit(ch)
  {
    ch as int - '0' as int
  }

  function DigitChar(d: nat): (ch: char)
    requires d < 10
    ensures IsDigit(ch) && DigitValue(ch) == d
  {
    ('0' as int + d) as char
  }

  /** The decimal value of a string of digits (leading zeros allowed), as `int(s)` reads it. */
  function Value(s: string): nat
    requires AllDigits(s)
  {
    if s == [] then 0 else Value(s[..|s| - 1]) * 10 + DigitValue(s[|s| - 1])
  }

  /** `str(n)` for a natural number: digits without leading zeros, "0" for zero. */
  function DecimalString(n: nat): (r: string)
    ensures r != [] && AllDigits(r)
    ensures r[0] == '0' ==> n == 0 && r == "0"
    decreases n
  {
    if n < 10 then [DigitChar(n)] else DecimalString(n / 10) + [DigitChar(n % 10)]
  }

  lemma {:induction false} ValueOfDecimal(n: nat)
    ensures Value(DecimalString(n)) == n
    decreases n
  {
    var s := DecimalString(n);
    if n >= 10 {
      ValueOfDecimal(n / 10);
      assert s[..|s| - 1] == DecimalString(n / 10);
    }
  }

  /** `int(s)` where `s` is meant to hold a registry id; `None` where Python raises ValueError. */
  function ParseInt(s: string): (r: Option<nat>)
    ensures r.Some? <==> s != [] && AllDigits(s)
    ensures r.Some? ==> r.value == Value(s)
  {
    if s != [] && AllDigits(s) then Some(Value(s)) else None
  }

  function Zeros(k: nat): (r: string)
    ensures |r| == k && forall i :: 0 <= i < k ==> r[i] == '0'
  {
    if k == 0 then [] else Zeros(k - 1) + ['0']
  }

  lemma {:induction false} ValueLeadingZeros(k: nat, s: string)
    requires AllDigits(s)
    ensures AllDigits(Zeros(k) + s) && Value(Zeros(k) + s) == Value(s)
    decreases |s|, k
  {
    var t := Zeros(k) + s;
    if s == [] {
      assert t == Zeros(k);
      if k > 0 {
        assert t[..|t| - 1] == Zeros(k - 1) + [];
        ValueLeadingZeros(k - 1, []);
      }
    } else {
      assert t[..|t| - 1] == Zeros(k) + s[..|s| - 1];
      ValueLeadingZeros(k, s[..|s| - 1]);
    }
  }

  /** `'%0{width}d' % n`: the decimal digits of `n`, left-padded with zeros to `width`. */
  function ZeroPad(n: nat, width: nat): (r: string)
    ensures AllDigits(r) && Value(r) == n
    ensures |r| == if width > |DecimalString(n)| then width else |DecimalString(n)|
  {
    var d := DecimalString(n);
    var k := if width > |d| then width - |d| else 0;
    ValueOfDecimal(n);
    ValueLeadingZeros(k, d);
    Zeros(k) + d
  }

  /** Stripping `c` from a string made only of `c` leaves nothing. */
  lemma LStripAll(s: string, c: char)
    requires forall i :: 0 <= i < |s| ==> s[i] == c
    ensures LStrip(s, c) == []
  {
  }

  lemma LStripLeadingZeros(k: nat, s: string)
    requires s != [] && s[0] != '0'
    ensures LStrip(Zeros(k) + s, '0') == s
  {
    var t := Zeros(k) + s;
    var r := LStrip(t, '0');
    assert t[k] == s[0];
    assert |t| - |r| <= k;
    assert r == t[k..] == s;
  }

  /** `str(int(s))` for a string of digits: the canonical form of a registry id. */
  function CanonicalId(s: string): (r: string)
    requires s != [] && AllDigits(s)
    ensures r != [] && AllDigits(r)
    ensures Value(r) == Value(s)
  {
    ValueOfDecimal(Value(s));
    DecimalString(Value(s))
  }

  /**
   * The namespaced locus id `'{prefix}-%06d' % id`: the prefix, then after the last
   * dash at least six digits that read back as `id`.
   */
  function NsId(prefix: string, id: nat): (r: string)
    ensures |r| > |prefix| && r[..|prefix|] == prefix
    ensures var tail := LastSegment(r, '-');
            |tail| >= 6 && AllDigits(tail) && Value(tail) == id && tail == ZeroPad(id, 6)
  {
    var z := ZeroPad(id, 6);
    assert '-' !in z by {
      assert forall i :: 0 <= i < |z| ==> IsDigit(z[i]);
    }
    LastSegmentAppend(prefix, '-', z);
    prefix + ['-'] + z
  }

  /** A suffix of a string without `c` has no `c` either. */
  lemma SuffixOmits(s: string, r: string, c: char)
    requires c !in s && |r| <= |s| && r == s[|s| - |r|..]
    ensures c !in r
  {
    forall i | 0 <= i < |r|
      ensures r[i] != c
    {
      assert r[i] == s[|s| - |r| + i];
    }
  }

  /**
   * `ns_id.split('-')[-1].lstrip('0')`: the locus id taken back out of a namespaced
   * id, holding no dash and no leading zero.
   */
  function NsIdLocus(nsId: string): (r: string)
    ensures |r| <= |nsId|
    ensures '-' !in r
    ensures r != [] ==> r[0] != '0'
  {
    var tail := LastSegment(nsId, '-');
    var r := LStrip(tail, '0');
    SuffixOmits(tail, r, '-');
    r
  }

  /** For every id the registry hands out (ids start at 1), the namespaced id gives back `str(id)`. */
  lemma NsIdRoundTrip(prefix: string, id: nat)
    requires id >= 1
    ensures NsIdLocus(NsId(prefix, id)) == DecimalString(id)
  {
    var d := DecimalString(id);
    var k := if 6 > |d| then 6 - |d| else 0;
    assert ZeroPad(id, 6) == Zeros(k) + d;
    LStripLeadingZeros(k, d);
  }

  /** Id 0 does not survive: stripping every zero leaves the empty string. */
  lemma NsIdZeroIsLost(prefix: string)
    ensures NsIdLocus(NsId(prefix, 0)) == ""
  {
    var z := ZeroPad(0, 6);
    assert z == Zeros(5) + "0";
    LStripAll(z, '0');
  }

  /** A registry URL ending in `/<id>` yields `str(id)` under `str(int(url.split('/')[-1]))`. */
  lemma CanonicalIdOfUrl(base: string, id: nat)
    ensures var tail := LastSegment(base + "/" + DecimalString(id), '/');
            tail == DecimalString(id) && CanonicalId(tail) == DecimalString(id)
  {
    var d := DecimalString(id);
    assert '/' !in d by {
      assert forall i :: 0 <= i < |d| ==> IsDigit(d[i]);
    }
    assert base + "/" + d == base + ['/'] + d;
    LastSegmentAppend(base, '/', d);
    ValueOfDecimal(id);
  }

  /** `os.path.join(dir, name)`. */
  function JoinPath(dir: string, name: string): string {
    if dir == [] then name
    else if dir[|dir| - 1] == '/' then dir + name
    else dir + "/" + name
  }

  /**
   * The allele file of a locus, `{species}_{schema}_{locus}` inside `dir`, zipped: for
   * a numeric locus id, the part after the last underscore is the id and ".zip".
   */
  function ZipFile(dir: string, species: string, schema: string, locusId: string): (r: string)
    ensures |r| >= 4 && r[|r| - 4..] == ".zip"
    ensures AllDigits(locusId) ==> LastSegment(r, '_') == locusId + ".zip"
  {
    var tail := locusId + ".zip";
    var front := JoinPath(dir, species + "_" + schema);
    assert JoinPath(dir, species + "_" + schema + "_" + locusId) + ".zip" == front + ['_'] + tail;
    assert AllDigits(locusId) ==> LastSegment(front + ['_'] + tail, '_') == tail by {
      if AllDigits(locusId) {
        assert '_' !in tail by {
          assert forall i :: 0 <= i < |locusId| ==> IsDigit(tail[i]);
          assert tail[|locusId|..] == ".zip";
        }
        LastSegmentAppend(front, '_', tail);
      }
    }
    front + ['_'] + tail
  }

  /**
   * `file.split('_')[-1].split('.zip')[0]`: the locus id read back from a zip file
   * name, the start of its last underscore-free part up to any ".zip".
   */
  function ZipLocusId(zip: string): (r: string)
    ensures '_' !in r
    ensures r <= LastSegment(zip, '_')
    ensures forall k: nat :: k < |r| ==> !OccursAt(LastSegment(zip, '_'), ".zip", k)
  {
    var tail := LastSegment(zip, '_');
    var r := PrefixBefore(tail, ".zip");
    assert forall i :: 0 <= i < |r| ==> r[i] == tail[i];
    r
  }

  lemma NoDotInDigits(s: string)
    requires AllDigits(s)
    ensures !IsSubstring(".zip", s)
  {
    forall k | 0 <= k <= |s|
      ensures !OccursAt(s, ".zip", k)
    {
      if k + 4 <= |s| {
        assert s[k..k + 4][0] == s[k] && IsDigit(s[k]);
      }
    }
  }

  lemma ZipLocusIdRoundTrip(dir: string, species: string, schema: string, locusId: string)
    requires AllDigits(locusId)
    ensures ZipLocusId(ZipFile(dir, species, schema, locusId)) == locusId
  {
    NoDotInDigits(locusId);
    PrefixBeforeAppend(locusId, ".zip");
  }

  /**
   * The lengths file of a locus, `{stem}_lengths` inside `dir`: for a stem without a
   * slash, the file's base name is the stem and "_lengths".
   */
  function LengthsFile(dir: string, stem: string): (r: string)
    ensures '/' !in stem ==> LastSegment(r, '/') == stem + "_lengths"
  {
    var name := stem + "_lengths";
    assert '/' !in stem ==> LastSegment(JoinPath(dir, name), '/') == name by {
      if '/' !in stem {
        assert '/' !in name by {
          assert forall i :: 0 <= i < |stem| ==> name[i] == stem[i];
          assert name[|stem|..] == "_lengths";
        }
        if dir == [] {
          LastSegmentWhole(name, '/');
        } else if dir[|dir| - 1] == '/' {
          assert dir + name == dir[..|dir| - 1] + ['/'] + name;
          LastSegmentAppend(dir[..|dir| - 1], '/', name);
        } else {
          assert dir + "/" + name == dir + ['/'] + name;
          LastSegmentAppend(dir, '/', name);
        }
      }
    }
    JoinPath(dir, name)
  }

  /**
   * `file.split('/')[-1].split('_lengths')[0]`: the locus stem read back from a
   * lengths file, the start of its base name up to any "_lengths".
   */
  function LengthsStem(file: string): (r: string)
    ensures '/' !in r
    ensures r <= LastSegment(file, '/')
    ensures forall k: nat :: k < |r| ==> !OccursAt(LastSegment(file, '/'), "_lengths", k)
  {
    var base := LastSegment(file, '/');
    var r := PrefixBefore(base, "_lengths");
    assert forall i :: 0 <= i < |r| ==> r[i] == base[i];
    r
  }

  lemma LengthsStemRoundTrip(dir: string, stem: string)
    requires '/' !in stem && !IsSubstring("_lengths", stem)
    ensures LengthsStem(LengthsFile(dir, stem)) == stem
  {
    PrefixBeforeAppend(stem, "_lengths");
  }
}

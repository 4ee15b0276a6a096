/**
 The dataset partitioner of the speech-recognition training utilities: `which_set`
 decides, from a sample's file path alone, whether the sample belongs to the
 training, validation or testing set.

 The SHA-1 digest of the grouping key is a parameter (`digestOf`: the digest read
 as an unsigned integer); percentages are exact reals.
 */
module Util {

  /** MAX_NUM_WAVS_PER_CLASS = 2^27 - 1. */
  const MaxNumWavsPerClass: nat := 0x800_0000 - 1

  /** The grouping marker: everything from its first occurrence on is ignored. */
  const NoHash: string := "_nohash_"

  /** The three sets a sample can be assigned to. */
  datatype Partition = Training | Validation | Testing {
    /** The string `which_set` returns for this set. */
    function Label(): (s: string)
      ensures s == "validation" <==> Validation?
      ensures s == "testing" <==> Testing?
      ensures s == "training" <==> Training?
    {
      match this
      case Training => "training"
      case Validation => "validation"
      case Testing => "testing"
    }
  }

  /** The index just after the last '/' before index `end` of `path`, or 0. */
  function NameStart(path: string, end: nat): (j: nat)
    requires end <= |path|
    ensures j <= end
    ensures forall i :: j <= i < end ==> path[i] != '/'
    ensures j > 0 ==> path[j - 1] == '/'
  {
    if end == 0 || path[end - 1] == '/' then end
    else NameStart(path, end - 1)
  }

  /** POSIX `os.path.basename`: the longest suffix of `path` without a '/'. */
  function Basename(path: string): (name: string)
    ensures |name| <= |path| && name == path[|path| - |name|..]
    ensures '/' !in name
    ensures |name| < |path| ==> path[|path| - |name| - 1] == '/'
  {
    path[NameStart(path, |path|)..]
  }

  /** The grouping marker occurs in `s` starting at index `i`: `s` splits into
      `i` characters, the marker, and the rest. */
  predicate MarkerAt(s: string, i: nat): (r: bool)
    ensures r <==> exists pre, post :: s == pre + NoHash + post && |pre| == i
  {
    if i + |NoHash| <= |s| && s[i..i + |NoHash|] == NoHash then
      assert s == s[..i] + NoHash + s[i + |NoHash|..];
      true
    else
      false
  }

  /** The index of the first occurrence of the marker in `s` at or after `from`,
      or |s| when there is none. */
  function FirstMarker(s: string, from: nat): (k: nat)
    requires from <= |s|
    ensures from <= k <= |s|
    ensures forall i :: from <= i < k ==> !MarkerAt(s, i)
    ensures k < |s| ==> MarkerAt(s, k)
    decreases |s| - from
  {
    if from + |NoHash| > |s| then |s|
    else if MarkerAt(s, from) then from
    else FirstMarker(s, from + 1)
  }

  /** `re.sub(r'_nohash_.*$', '', base_name)`: the grouping key is the base name
      cut just before the first occurrence of the marker. */
  function HashName(baseName: string): (key: string)
    ensures |key| <= |baseName| && key == baseName[..|key|]
    ensures forall i :: 0 <= i < |key| ==> !MarkerAt(baseName, i)
    ensures |key| < |baseName| ==> MarkerAt(baseName, |key|)
  {
    baseName[..FirstMarker(baseName, 0)]
  }

  /** `int(digest, 16) % (MAX_NUM_WAVS_PER_CLASS + 1)`: the low 27 bits of the digest. */
  function Bucket(digest: nat): (b: nat)
    ensures b <= MaxNumWavsPerClass
    ensures (digest - b) % (MaxNumWavsPerClass + 1) == 0
  {
    digest % (MaxNumWavsPerClass + 1)
  }

  /** `bucket * (100.0 / MAX_NUM_WAVS_PER_CLASS)` in exact arithmetic. The divisor is
      one less than the modulus, so the top bucket maps to exactly 100. */
  function Percentage(bucket: nat): (p: real)
    ensures 0.0 <= p
    ensures bucket <= MaxNumWavsPerClass ==> p <= 100.0
    ensures p == 100.0 <==> bucket == MaxNumWavsPerClass
    ensures bucket < MaxNumWavsPerClass ==> p < 100.0
  {
    (bucket as real) * (100.0 / (MaxNumWavsPerClass as real))
  }

  /** `percentage_hash`: the pseudo-random percentage of the file's grouping key. */
  function PercentageHash(digestOf: string -> nat, filename: string): (p: real)
    ensures 0.0 <= p <= 100.0
  {
    Percentage(Bucket(digestOf(HashName(Basename(filename)))))
  }

  /** `which_set`: validation below `validationPercentage`, otherwise testing below
      `testingPercentage + validationPercentage`, otherwise training. */
  function WhichSet(digestOf: string -> nat, filename: string,
                    validationPercentage: real, testingPercentage: real): (r: Partition)
    ensures r == Validation <==> PercentageHash(digestOf, filename) < validationPercentage
    ensures r == Testing <==>
              validationPercentage <= PercentageHash(digestOf, filename) < testingPercentage + validationPercentage
    ensures r == Training <==>
              validationPercentage <= PercentageHash(digestOf, filename)
              && testingPercentage + validationPercentage <= PercentageHash(digestOf, filename)
  {
    var p := PercentageHash(digestOf, filename);
    if p < validationPercentage then Validation
    else if p < testingPercentage + validationPercentage then Testing
    else Training
  }
}

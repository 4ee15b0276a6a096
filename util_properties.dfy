/**
 Properties of the dataset partitioner: what the key depends on, how files are
 grouped, the range of the percentage and the ordered threshold rule.
 */
module UtilProperties {
  import opened Util

  // ---------------------------------------------------------------------------
  // Exactly three outcomes

  /** `which_set` returns one of three strings, and different sets have different
      strings. */
  lemma ExactlyOneLabel(digestOf: string -> nat, filename: string, v: real, t: real, p: Partition, q: Partition)
    ensures WhichSet(digestOf, filename, v, t).Label() in {"validation", "testing", "training"}
    ensures p.Label() == q.Label() <==> p == q
  {
  }

  // ---------------------------------------------------------------------------
  // Only the base name matters

  /** The three facts `Basename` promises determine its result: there is exactly
      one '/'-free suffix that is the whole path or follows a '/'. */
  lemma BasenameUnique(path: string, name: string)
    requires |name| <= |path| && name == path[|path| - |name|..]
    requires '/' !in name
    requires |name| < |path| ==> path[|path| - |name| - 1] == '/'
    ensures Basename(path) == name
  {
  }

  /** A file name under a directory has that name as its base name. */
  lemma BasenameOfJoin(dir: string, name: string)
    requires '/' !in name
    ensures Basename(dir + "/" + name) == name
    ensures Basename(name) == name
  {
    var path := dir + "/" + name;
    assert path[|path| - |name|..] == name;
    assert path[|path| - |name| - 1] == '/';
    BasenameUnique(path, name);
    BasenameUnique(name, name);
  }

  /** Files with the same base name are put in the same set. */
  lemma OnlyBasenameMatters(digestOf: string -> nat, f1: string, f2: string, v: real, t: real)
    requires Basename(f1) == Basename(f2)
    ensures WhichSet(digestOf, f1, v, t) == WhichSet(digestOf, f2, v, t)
  {
  }

  /** Moving a file to another directory does not move it to another set. */
  lemma DirectoryIgnored(digestOf: string -> nat, dir: string, name: string, v: real, t: real)
    requires '/' !in name
    ensures WhichSet(digestOf, dir + "/" + name, v, t) == WhichSet(digestOf, name, v, t)
  {
    BasenameOfJoin(dir, name);
  }

  // ---------------------------------------------------------------------------
  // The grouping key

  /** The marker does not occur anywhere in `s`. */
  predicate MarkerFree(s: string) {
    forall i :: 0 <= i <= |s| ==> !MarkerAt(s, i)
  }

  /** The grouping key is a prefix of the base name with no marker in it. */
  lemma KeyHasNoMarker(baseName: string)
    ensures MarkerFree(HashName(baseName))
  {
    var key := HashName(baseName);
    forall i | 0 <= i <= |key| ensures !MarkerAt(key, i) {
      if i + |NoHash| <= |key| {
        assert key[i..i + |NoHash|] == baseName[..|key|][i..i + |NoHash|] == baseName[i..i + |NoHash|];
        assert !MarkerAt(baseName, i);
      }
    }
  }

  /** The key is the base name itself exactly when the base name has no marker. */
  lemma KeyUnchangedIff(baseName: string)
    ensures HashName(baseName) == baseName <==> MarkerFree(baseName)
  {
    var key := HashName(baseName);
    if key == baseName {
      KeyHasNoMarker(baseName);
    } else {
      assert MarkerAt(baseName, |key|);
    }
  }

  /** Stripping the marker a second time changes nothing. */
  lemma KeyIdempotent(baseName: string)
    ensures HashName(HashName(baseName)) == HashName(baseName)
  {
    KeyHasNoMarker(baseName);
    KeyUnchangedIff(HashName(baseName));
  }

  /** Base names that agree up to and including a marker have the same key: the
      first marker of either starts no later than that one, where both agree. */
  lemma SameKeyUpToMarker(a: string, b: string, stem: string)
    requires stem + NoHash <= a && stem + NoHash <= b
    ensures HashName(a) == HashName(b)
  {
    var n := |stem| + |NoHash|;
    assert a[..n] == b[..n];
    forall i | 0 <= i <= |stem| ensures MarkerAt(a, i) <==> MarkerAt(b, i) {
      assert a[i..i + |NoHash|] == a[..n][i..i + |NoHash|];
      assert b[i..i + |NoHash|] == b[..n][i..i + |NoHash|];
    }
    assert a[|stem|..n] == NoHash && b[|stem|..n] == NoHash;
    assert MarkerAt(a, |stem|) && MarkerAt(b, |stem|);
    var ka, kb := |HashName(a)|, |HashName(b)|;
    assert ka <= |stem| && kb <= |stem|;
    assert MarkerAt(a, ka) && MarkerAt(b, kb);
    assert HashName(a) == a[..n][..ka] == b[..n][..kb] == HashName(b);
  }

  /** Files whose base names agree up to and including a marker, such as
      `bobby_nohash_0.wav` and `bobby_nohash_1.wav`, are put in the same set. */
  lemma GroupedTogether(digestOf: string -> nat, f1: string, f2: string, stem: string, v: real, t: real)
    requires stem + NoHash <= Basename(f1) && stem + NoHash <= Basename(f2)
    ensures WhichSet(digestOf, f1, v, t) == WhichSet(digestOf, f2, v, t)
  {
    SameKeyUpToMarker(Basename(f1), Basename(f2), stem);
    DeterminedByKey(digestOf, f1, f2, v, t);
  }

  /** The part before a marker is the key exactly when no earlier marker starts
      inside it (one may run into the marker itself, as in `a_nohash` + `_nohash_`). */
  lemma KeyOfStem(stem: string, tail: string)
    ensures HashName(stem + NoHash + tail) == stem <==>
              forall i :: 0 <= i < |stem| ==> !MarkerAt(stem + NoHash, i)
  {
    var s, m := stem + NoHash + tail, stem + NoHash;
    assert s[..|m|] == m;
    forall i | 0 <= i < |stem| ensures MarkerAt(s, i) <==> MarkerAt(m, i) {
      assert s[i..i + |NoHash|] == s[..|m|][i..i + |NoHash|];
    }
    assert s[|stem|..|m|] == NoHash;
    assert MarkerAt(s, |stem|);
    assert |HashName(s)| <= |stem|;
  }

  /** When the part before the marker has no underscore, that part is the key. */
  lemma KeyOfPlainStem(stem: string, tail: string)
    requires '_' !in stem
    ensures HashName(stem + NoHash + tail) == stem
  {
    var s := stem + NoHash + tail;
    assert s[|stem|..|stem| + |NoHash|] == NoHash;
    forall i | 0 <= i < |stem| ensures !MarkerAt(s, i) {
      assert s[i] == stem[i] != NoHash[0];
      assert i + |NoHash| <= |s| ==> s[i..i + |NoHash|][0] == s[i];
    }
    assert MarkerAt(s, |stem|);
  }

  /** A file `dir/stem_nohash_tail` whose stem has no underscore has key `stem`. */
  lemma KeyOfFile(dir: string, stem: string, tail: string)
    requires '_' !in stem && '/' !in stem + NoHash + tail
    ensures HashName(Basename(dir + "/" + stem + NoHash + tail)) == stem
  {
    assert dir + "/" + stem + NoHash + tail == dir + "/" + (stem + NoHash + tail);
    BasenameOfJoin(dir, stem + NoHash + tail);
    KeyOfPlainStem(stem, tail);
  }

  /** The documented example: both recordings of `bobby` are put in the same set. */
  lemma BobbyExample(digestOf: string -> nat, v: real, t: real)
    ensures WhichSet(digestOf, "a/bobby_nohash_0.wav", v, t) == WhichSet(digestOf, "a/bobby_nohash_1.wav", v, t)
  {
    assert "a/bobby_nohash_0.wav" == "a" + "/" + "bobby" + NoHash + "0.wav";
    assert "a/bobby_nohash_1.wav" == "a" + "/" + "bobby" + NoHash + "1.wav";
    KeyOfFile("a", "bobby", "0.wav");
    KeyOfFile("a", "bobby", "1.wav");
    DeterminedByKey(digestOf, "a/bobby_nohash_0.wav", "a/bobby_nohash_1.wav", v, t);
  }

  // ---------------------------------------------------------------------------
  // The bucket and the percentage

  /** The percentage comparison is the integer comparison
      `bucket * 100 < v * MAX_NUM_WAVS_PER_CLASS`. */
  lemma BelowIffCrossMultiplied(bucket: nat, v: real)
    ensures Percentage(bucket) < v <==> ((bucket * 100) as real) < v * (MaxNumWavsPerClass as real)
  {
  }

  /** `MAX_NUM_WAVS_PER_CLASS + 1` is `2^27`, so the bucket is the low 27 bits of the
      digest. */
  lemma BucketIsLowBits(digest: nat)
    ensures Bucket(digest) == digest % 0x800_0000
    ensures Bucket(digest) < 0x800_0000
  {
  }

  /** A digest whose low 27 bits are all ones has percentage exactly 100. */
  lemma TopBucketIsHundred(digest: nat)
    requires digest % (MaxNumWavsPerClass + 1) == MaxNumWavsPerClass
    ensures Percentage(Bucket(digest)) == 100.0
  {
    assert Bucket(digest) == MaxNumWavsPerClass;
  }

  /** A file whose percentage is exactly 100 is not in the validation set even when
      the validation percentage is 100. */
  lemma HundredMissesFullValidation(digestOf: string -> nat, filename: string, t: real)
    requires PercentageHash(digestOf, filename) == 100.0
    ensures WhichSet(digestOf, filename, 100.0, t) == if t > 0.0 then Testing else Training
  {
  }

  /** So a key in the top bucket escapes a validation percentage of 100. */
  lemma TopBucketEscapesFullValidation(digestOf: string -> nat, filename: string, t: real)
    requires Bucket(digestOf(HashName(Basename(filename)))) == MaxNumWavsPerClass
    ensures WhichSet(digestOf, filename, 100.0, t) == if t > 0.0 then Testing else Training
  {
    HundredMissesFullValidation(digestOf, filename, t);
  }

  /** Every other key is in the validation set when the validation percentage is 100. */
  lemma FullValidationBelowTopBucket(digestOf: string -> nat, filename: string, t: real)
    requires Bucket(digestOf(HashName(Basename(filename)))) < MaxNumWavsPerClass
    ensures WhichSet(digestOf, filename, 100.0, t) == Validation
  {
  }

  /** Thresholds that add up to 100 or more leave only the top bucket to training. */
  lemma FullThresholdsTrainingOnlyTopBucket(digestOf: string -> nat, filename: string, v: real, t: real)
    requires t + v >= 100.0
    ensures WhichSet(digestOf, filename, v, t) == Training ==>
              Bucket(digestOf(HashName(Basename(filename)))) == MaxNumWavsPerClass
  {
  }

  /** Conversely, when the two percentages add up to at most 100 and the validation
      percentage is at most 100, a top-bucket key does go to training. */
  lemma TopBucketTrainingUnderFullThresholds(digestOf: string -> nat, filename: string, v: real, t: real)
    requires v <= 100.0 && t + v <= 100.0
    requires Bucket(digestOf(HashName(Basename(filename)))) == MaxNumWavsPerClass
    ensures WhichSet(digestOf, filename, v, t) == Training
  {
  }

  // ---------------------------------------------------------------------------
  // The ordered threshold rule

  /** Validation is decided first: the testing percentage cannot take a file out of
      the validation set, and a larger validation percentage keeps it there. */
  lemma ValidationMonotone(digestOf: string -> nat, filename: string, v: real, v': real, t: real, t': real)
    requires v <= v'
    requires WhichSet(digestOf, filename, v, t) == Validation
    ensures WhichSet(digestOf, filename, v', t') == Validation
  {
  }

  /** A testing percentage of zero or less puts no file in the testing set. */
  lemma NoTestingWithoutTestingPercentage(digestOf: string -> nat, filename: string, v: real, t: real)
    requires t <= 0.0
    ensures WhichSet(digestOf, filename, v, t) != Testing
  {
  }

  /** With both percentages zero every file is in the training set. */
  lemma ZeroPercentagesAllTraining(digestOf: string -> nat, filename: string)
    ensures WhichSet(digestOf, filename, 0.0, 0.0) == Training
  {
  }

  /** The set depends on the file only through its grouping key. */
  lemma DeterminedByKey(digestOf: string -> nat, f1: string, f2: string, v: real, t: real)
    requires HashName(Basename(f1)) == HashName(Basename(f2))
    ensures WhichSet(digestOf, f1, v, t) == WhichSet(digestOf, f2, v, t)
  {
  }
}

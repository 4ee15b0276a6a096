# Dataset partitioner of the LSTM speech-recognition utilities

`which_set` in `util.py` decides whether an audio sample goes into the training,
validation or testing set. It looks only at the sample's file name, so the
assignment stays the same when other files are added later. It works in four steps:

1. It takes the base name of the path.
2. It cuts the base name at the first `_nohash_`. This is the grouping key, so
   recordings such as `bobby_nohash_0.wav` and `bobby_nohash_1.wav` share one key.
3. It hashes the key with SHA-1 and reduces the digest modulo
   `MAX_NUM_WAVS_PER_CLASS + 1 = 2^27`. It then multiplies the result by
   `100 / MAX_NUM_WAVS_PER_CLASS`, which gives a percentage.
4. It applies an ordered, half-open threshold rule:
   - below `validation_percentage` gives validation;
   - otherwise, below `validation_percentage + testing_percentage` gives testing;
   - anything else gives training.

The model has two parts:

- `util.dfy` (module `Util`) holds the definitions.
- `util_properties.dfy` (module `UtilProperties`) holds the lemmas.

SHA-1 is passed in as a parameter, `digestOf: string -> nat`. It is the digest of
the key read as an unsigned integer. The proofs therefore hold for every hash
function. Percentages and thresholds are exact `real`s.

The code takes the remainder modulo `2^27` but divides by `2^27 - 1`, so the
percentage lies in the closed range `[0, 100]`: the top bucket `2^27 - 1` gives
exactly 100.
As a result, `validation_percentage = 100` sends every key to validation except
keys in the top bucket (`TopBucketIsHundred`, `TopBucketEscapesFullValidation`,
`FullValidationBelowTopBucket`). Likewise, when `validation_percentage <= 100`
and the two percentages add up to 100, training keeps exactly that one bucket:
only a top-bucket key can go to training (`FullThresholdsTrainingOnlyTopBucket`),
and every top-bucket key does (`TopBucketTrainingUnderFullThresholds`).

## Model

| member | source | states |
|---|---|---|
| `Util.Basename` | util.py:35 | the result is the longest suffix of the path that has no '/': it is a suffix, it contains no '/', and it is either the whole path or it comes right after a '/' |
| `Util.Partition.Label` | util.py:51-57 | the string returned for each set: `'validation'` exactly for validation, `'testing'` exactly for testing, `'training'` exactly for training |
| `Util.MarkerAt` | util.py:39 | the literal `_nohash_` of the pattern matches at index `i` exactly when the name splits as `pre + "_nohash_" + post` with `pre` of length `i`; the `FirstMarker` and `HashName` contracts are written in this predicate |
| `Util.NameStart` | util.py:35 | the index just after the last '/' before `end`, or 0 when there is none; no '/' lies between it and `end` |
| `Util.FirstMarker` | util.py:39 | the index at or after `from` where the first `_nohash_` starts; no match starts earlier, and the result is the length when there is no match |
| `Util.HashName` | util.py:36-39 | the grouping key is a prefix of the base name; no `_nohash_` starts inside it; when it is shorter than the base name, a `_nohash_` starts right where it ends (the match of `_nohash_.*$` is removed) |
| `Util.Bucket` | util.py:48-49 | the bucket is at most `MAX_NUM_WAVS_PER_CLASS`, and it is congruent to the digest modulo `2^27` |
| `Util.Percentage` | util.py:48-50 | the percentage is never negative and is at most 100 for any bucket; it equals 100 exactly for the top bucket and is below 100 for every other bucket |
| `Util.PercentageHash` | util.py:47-50 | the percentage of any file lies in `[0, 100]` |
| `Util.WhichSet` | util.py:51-57 | validation iff the percentage is below `validation_percentage`; testing iff it is at least `validation_percentage` and below `testing_percentage + validation_percentage`; training iff it is at least both |
| `UtilProperties.ExactlyOneLabel` | util.py:51-57 | the returned label is one of `'validation'`, `'testing'`, `'training'`; two sets have the same label only when they are the same set |
| `UtilProperties.BasenameUnique` | util.py:35 | exactly one string meets the three facts `Basename` promises, so those facts define the base name |
| `UtilProperties.BasenameOfJoin` | util.py:35 | the base name of `dir/name` is `name` when `name` has no '/'; such a name is its own base name |
| `UtilProperties.OnlyBasenameMatters` | util.py:35 | two paths with the same base name go into the same set under the same percentages |
| `UtilProperties.DirectoryIgnored` | util.py:35 | moving a file into any directory does not change its set |
| `UtilProperties.KeyHasNoMarker` | util.py:39 | `_nohash_` occurs nowhere in the grouping key |
| `UtilProperties.KeyUnchangedIff` | util.py:36-39 | the key equals the base name exactly when the base name contains no `_nohash_` |
| `UtilProperties.KeyIdempotent` | util.py:39 | stripping the marker from a key a second time changes nothing |
| `UtilProperties.SameKeyUpToMarker` | util.py:39 | two base names that both start with `stem + "_nohash_"` have the same key, whatever follows |
| `UtilProperties.GroupedTogether` | util.py:22-25 | files whose base names agree up to and including a `_nohash_` go into the same set under the same percentages |
| `UtilProperties.KeyOfStem` | util.py:39 | the key of `stem + "_nohash_" + tail` is `stem` exactly when no `_nohash_` starts inside `stem` in `stem + "_nohash_"`, in both directions |
| `UtilProperties.KeyOfPlainStem` | util.py:39 | when `stem` has no underscore, the key of `stem + "_nohash_" + tail` is `stem` |
| `UtilProperties.KeyOfFile` | util.py:35-39 | when `stem` has no underscore and `stem_nohash_tail` has no '/', the key of `dir/stem_nohash_tail` is `stem` |
| `UtilProperties.BobbyExample` | util.py:24-25 | `a/bobby_nohash_0.wav` and `a/bobby_nohash_1.wav` always go into the same set |
| `UtilProperties.DeterminedByKey` | util.py:18-20 | the set depends on the file only through its grouping key, so adding other files changes nothing |
| `UtilProperties.BelowIffCrossMultiplied` | util.py:48-51 | the percentage test `p < v` is the same as the integer-scaled test `bucket * 100 < v * MAX_NUM_WAVS_PER_CLASS` |
| `UtilProperties.BucketIsLowBits` | util.py:9 | `MAX_NUM_WAVS_PER_CLASS + 1` is `2^27`, so the bucket is the digest modulo `2^27` and lies below `2^27` |
| `UtilProperties.TopBucketIsHundred` | util.py:48-50 | a digest whose low 27 bits are all ones has percentage exactly 100 |
| `UtilProperties.HundredMissesFullValidation` | util.py:51-56 | a file whose percentage is exactly 100 is not in validation when `validation_percentage = 100`; it goes to testing when `testing_percentage > 0` and to training otherwise |
| `UtilProperties.TopBucketEscapesFullValidation` | util.py:48-56 | a key in the top bucket is not in validation when `validation_percentage = 100`; it goes to testing when `testing_percentage > 0` and to training otherwise |
| `UtilProperties.FullValidationBelowTopBucket` | util.py:48-52 | with `validation_percentage = 100`, every key below the top bucket goes to validation |
| `UtilProperties.FullThresholdsTrainingOnlyTopBucket` | util.py:48-56 | when the two percentages add up to 100 or more, only a top-bucket key can go to training |
| `UtilProperties.TopBucketTrainingUnderFullThresholds` | util.py:48-56 | when `validation_percentage <= 100` and the two percentages add up to at most 100, a top-bucket key goes to training |
| `UtilProperties.ValidationMonotone` | util.py:51-52 | a file in validation stays there when `validation_percentage` grows, whatever either testing percentage is |
| `UtilProperties.NoTestingWithoutTestingPercentage` | util.py:53-54 | no file goes to testing when `testing_percentage <= 0` |
| `UtilProperties.ZeroPercentagesAllTraining` | util.py:48-56 | with both percentages 0, every file goes to training |

## Left out

- `prepare_settings` (util.py:60-87) is not modelled. It only passes flags on to `input_data.prepare_audio_settings` and `input_data.AudioProcessor` and builds a TensorFlow placeholder. Those are external libraries with no decision logic here, and `input_data` is not part of this model.
- `Util.PercentageHash` assumes that `hashlib.sha1` accepts the key, as it does for Python 2 byte-string names. The exceptions on the other inputs are not modelled. Under Python 3, a `str` name raises `TypeError` at util.py:47, and a `bytes` name raises `TypeError` earlier, at the `str`-pattern `re.sub` on util.py:39. Under Python 2, a non-ASCII `unicode` name raises `UnicodeEncodeError`. The parameter `digestOf` is total, so the model has no error path.
- SHA-1 is not modelled. Neither is the byte encoding of the key given to `hashlib.sha1`, nor the reading of the hex digest as an integer. All three are replaced by the parameter `digestOf`.
- Floating-point rounding is not modelled. This covers `100.0 / MAX_NUM_WAVS_PER_CLASS`, the product, and the comparisons with thresholds. The model uses exact reals instead. Rounding could decide the set of a key whose exact percentage is very close to a threshold.
- Thresholds of non-numeric types are not modelled. In Python they would raise or compare by type. The model takes thresholds as reals.
- `Util.HashName` cuts at the first `_nohash_` and never looks for newline characters. Under Python's regular expression, `.` does not match a newline and `$` also matches before a final newline. So a base name that contains a newline after its first `_nohash_` can be stripped differently, or not at all. Names with newlines are outside this model.
- `Util.Basename` follows POSIX `os.path.basename`: it returns the part after the last '/'. Windows separators are not modelled.

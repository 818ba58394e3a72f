# GitGuard AI scanner — a Dafny model of the per-file decision

GitGuard AI is a pre-commit hook. It reads each staged file, turns every
line into four numbers, and asks a small trained network how much the line
looks like a secret. This project models the deterministic part around the
network:

- the line translator `extract_features`. It computes the digit ratio, the
  `string.punctuation` ratio and the upper-case ratio over the line's full
  length, plus `calculate_entropy`. Entropy is the sum of `-p * log2(p)` over
  the code points `chr(0)` .. `chr(255)`.
- the scanner `scan_file`. It has two exempt path names and fail-open
  handling of unreadable files. It splits the file on `'\n'`, strips each
  line, and skips lines shorter than 8 characters or starting with `#`. It
  keeps the first line with the highest score and declares the file unsafe
  when that score is strictly above 0.50.
- the entry point. It fails open when the model cannot be loaded, scans
  every path it is given, and exits with status 1 exactly when some file
  was unsafe.

The training script's `calculate_entropy` and `extract_features`
(train_local.py:27-43) are the same text as git_guard.py:26-42. The single
definition in `FeatureExtraction` therefore stands for both.

Two things are parameters:

- the classifier, `predict: Features -> real`. It can be any function of the
  four features. No range is assumed.
- the base-2 logarithm, `log2: real -> real`. A lemma that needs a fact about
  it takes that fact as a premise, such as `log2(1) == 0` or `log2(p) <= 0`
  on (0, 1].

The file system is a function `fs: string -> ReadOutcome`, and loading the
model is a `Classifier` value.

Modules:
- `Text` (text.dfy): character classes, `strip`, `split('\n')` with its
  inverse `join`, `count`, `in` and `startswith`.
- `FeatureExtraction` (features.dfy): the feature vector and the entropy.
- `Scanner` (scanner.dfy): the line filter, the max/argmax loop and
  `scan_file`.
- `Guard` (guard.dfy): the main block.

`calculate_entropy` counts the code points `chr(0)` .. `chr(255)` of the
decoded text, not bytes, and divides by the full character length. So
characters above `chr(255)` add no term but still enlarge the denominator
(`SymbolTotalIsLatin1Count`).

## Model

| member | source | states |
|---|---|---|
| Text.Count | git_guard.py:38-40 | a class count never exceeds the length of the line |
| Text.CountAppend | git_guard.py:38-40 | the class count of a concatenation is the sum of the parts' counts |
| Text.CountAll | git_guard.py:38-40 | the count equals the length exactly when every character is in the class |
| Text.Occurrences | git_guard.py:30 | `text.count(c)` is at most the length of the text |
| Text.TrimLeftSpec | git_guard.py:62 | removing leading whitespace leaves a suffix; everything removed is whitespace; what is left is empty or starts with a non-whitespace character |
| Text.TrimRightSpec | git_guard.py:62 | removing trailing whitespace leaves a prefix; everything removed is whitespace; what is left is empty or ends with a non-whitespace character |
| Text.StripSpec | git_guard.py:62 | the stripped line is a slice of the line with only whitespace around it; its ends are not whitespace; it is empty exactly when the line is all whitespace |
| Text.StripIdempotent | git_guard.py:62 | stripping an already stripped line changes nothing |
| Text.Split | git_guard.py:57 | `split('\n')` gives one more piece than the text has line feeds, and no piece contains a line feed |
| Text.JoinSplit | git_guard.py:57 | joining the pieces of a split with `'\n'` gives back the original text |
| Text.SplitJoin | git_guard.py:57 | splitting a `'\n'`-join of at least one line-feed-free piece gives back exactly those pieces |
| Text.ContainsIff | git_guard.py:47-50 | `needle in hay` holds exactly when the needle occurs at some offset of the path |
| Text.ContainsInfix | git_guard.py:47-50 | a path of the form `a + needle + b` contains the needle |
| FeatureExtraction.ExtractFeatures | git_guard.py:34-42 | the empty line gives exactly `[0, 0, 0, 0]`; otherwise each ratio is its class count divided by the full length, each lies in [0, 1], the three ratios sum to at most 1, and the fourth entry is the line's entropy |
| FeatureExtraction.ClassCountsBound | git_guard.py:38-40 | digits, punctuation and upper-case letters are disjoint, so their counts sum to at most the length |
| FeatureExtraction.EntropyNonNegative | git_guard.py:26-32 | if log2 is non-positive on (0, 1], entropy is never negative |
| FeatureExtraction.EntropyOfRepetition | git_guard.py:26-32 | a line of one repeated character has entropy 0, given log2(1) = 0; a character beyond `chr(255)` contributes no term |
| FeatureExtraction.EntropyOfUniform | git_guard.py:26-32 | a 256-character line in which each of `chr(0)` .. `chr(255)` occurs once has entropy 8, given log2(1/256) = -8 |
| FeatureExtraction.SymbolTotalIsLatin1Count | git_guard.py:29-31 | the symbol counts weighed by the entropy loop add up to the number of characters below `chr(256)`; they equal the full length only when every character is in that range |
| Scanner.ScanLinesMeetsSpec | git_guard.py:57-74 | after the loop, `max_score` is at least 0 and at least every qualifying line's score. When it is 0, `suspicious_line` is `""`. Otherwise it is the score of the first qualifying line reaching the maximum, and `suspicious_line` is that raw line |
| Scanner.ScanResultUnique | git_guard.py:58-74 | at most one (max_score, suspicious_line) pair meets the loop's specification |
| Scanner.ScanLinesCharacterised | git_guard.py:58-74 | a state meets the loop's specification exactly when it is what the loop computes |
| Scanner.ScanLinesSkipsLine | git_guard.py:61-66 | a line whose stripped form is short or a comment, inserted anywhere, leaves the loop's result unchanged whatever its content |
| Scanner.QualifyingLines | git_guard.py:62-66 | the kept lines all qualify, and a line of the file is kept exactly when it qualifies |
| Scanner.ScanLinesOfQualifying | git_guard.py:61-74 | scanning all lines gives the same result as scanning only the qualifying ones |
| Scanner.PaddedCount | git_guard.py:38-40 | padding with no character of a class does not change that class's count |
| Scanner.ScoresUnstrippedLine | git_guard.py:62-69 | features come from the unstripped line: leading whitespace leaves the class counts unchanged but lengthens the denominator |
| Scanner.ScanFile | git_guard.py:45-88 | exactly the two path names are exempt; only a readable non-exempt file can be unsafe; an unsafe report carries a score strictly above 0.50 that is the largest score of any qualifying line of the file, together with the first qualifying line reaching it |
| Scanner.ScanFileFailsIff | git_guard.py:57-84 | `scan_file` returns False exactly when the path is not exempt, the file was read, and some qualifying line scores strictly above 0.50 |
| Scanner.NoQualifyingLinePasses | git_guard.py:57-84 | a readable file with no qualifying line is safe, whatever the classifier |
| Scanner.ExemptPathsNotRead | git_guard.py:47-50 | a path containing `git_guard.py` or `train_local.py` is exempt for every file system, so the file is never read |
| Guard.RunGuard | git_guard.py:91-106 | the exit status is 0 or 1. With no model loaded (the fail-open exit at lines 18-23) the status is 0 and nothing is scanned. Otherwise every path gets its own report in order, also after an unsafe one, and the status is 1 exactly when some file fails. No paths gives 0 |

## Left out

- Model loading and `model.predict` (TensorFlow/Keras): the classifier is the parameter `predict`. A load failure is the `Classifier.Unavailable` case (git_guard.py:18-23). The float32 rounding of the score is not modelled; scores are reals, so there is no NaN score.
- FeatureExtraction.ExtractFeatures: the three ratios and the entropy's running sum are exact reals, not the float64 quotients and float64 sum the source computes. So "the ratios sum to at most 1" holds of the model. Rounded float64 values can exceed 1, for example 1/5 + 2/5 + 2/5.
- `math.log(p, 2)`: floating-point numerics. It is the parameter `log2`. The upper bound of 8 on entropy is not proved, because it needs the concavity of the logarithm.
- File I/O and UTF-8 decoding: the file system is the parameter `fs`, and a read or decode failure is `ReadOutcome.Unreadable`.
- Scanner.ScanFile: the blanket `except` also turns an exception raised while scoring into "safe". Only the read failure is modelled, because the classifier here is total.
- Printing, emoji output and `sys.exit`: side effects only. The unsafe report keeps the raw line, which the source prints after stripping.
- Python's Unicode tables for `str.strip`, `isdigit` and `isupper`: modelled on ASCII only. This means whitespace is tab, LF, VT, FF, CR, 0x1C-0x1F and space; digits are `0`-`9`; upper case is `A`-`Z`.
- Training in train_local.py: random data generation, pandas shuffling and Keras fitting are not part of this model.

/** `scan_file`: the per-file decision. Lines that qualify are scored by
    the classifier (`predict`, an arbitrary function of the four features);
    the first line with the highest score is remembered, and the file is
    unsafe when that score is strictly above the threshold. */
module Scanner {
  import opened Text
  import opened FeatureExtraction

  /** A file is unsafe when its best score is strictly above this. */
  const Threshold: real := 0.5

  /** Stripped lines shorter than this are not scored. */
  const MinLineLength: nat := 8

  /** The loop variables `max_score` and `suspicious_line`. */
  datatype ScanState = ScanState(maxScore: real, suspiciousLine: string)

  const Initial: ScanState := ScanState(0.0, "")

  /** A line is scored unless its stripped form is short or a comment. */
  predicate Qualifies(line: string) {
    var clean := Strip(line);
    |clean| >= MinLineLength && !StartsWith(clean, "#")
  }

  /** The classifier's score of a line: the features are taken from the
      line as it stands, not from its stripped form. */
  function LineScore(line: string, predict: Features -> real, log2: real -> real): real {
    predict(ExtractFeatures(line, log2))
  }

  /** One iteration of the loop over the lines. */
  function Step(st: ScanState, line: string, predict: Features -> real, log2: real -> real): ScanState {
    if !Qualifies(line) then st
    else
      var score := LineScore(line, predict, log2);
      if score > st.maxScore then ScanState(score, line) else st
  }

  /** The state after the loop has run over all of `lines`, in order. */
  function ScanLines(lines: seq<string>, predict: Features -> real, log2: real -> real): ScanState
    decreases |lines|
  {
    if |lines| == 0 then Initial
    else Step(ScanLines(lines[..|lines| - 1], predict, log2), lines[|lines| - 1], predict, log2)
  }

  /** Line `i` qualifies, reaches `st.maxScore`, is the remembered line, and
      no earlier qualifying line reaches that score. */
  ghost predicate FirstMaximal(lines: seq<string>, i: int, st: ScanState, predict: Features -> real, log2: real -> real) {
    && 0 <= i < |lines|
    && Qualifies(lines[i])
    && LineScore(lines[i], predict, log2) == st.maxScore
    && st.suspiciousLine == lines[i]
    && forall j :: 0 <= j < i && Qualifies(lines[j]) ==> LineScore(lines[j], predict, log2) < st.maxScore
  }

  /** What the loop is meant to compute, stated without the loop: the
      maximum of 0 and every qualifying score; when it is positive, the
      first qualifying line reaching it; otherwise the empty line. */
  ghost predicate IsScanResult(lines: seq<string>, st: ScanState, predict: Features -> real, log2: real -> real) {
    && st.maxScore >= 0.0
    && (forall i :: 0 <= i < |lines| && Qualifies(lines[i]) ==> LineScore(lines[i], predict, log2) <= st.maxScore)
    && (if st.maxScore == 0.0 then st.suspiciousLine == ""
        else exists i :: FirstMaximal(lines, i, st, predict, log2))
  }

  lemma {:induction false} ScanLinesMeetsSpec(lines: seq<string>, predict: Features -> real, log2: real -> real)
    ensures IsScanResult(lines, ScanLines(lines, predict, log2), predict, log2)
    decreases |lines|
  {
    if |lines| > 0 {
      var n := |lines|;
      var prefix := lines[..n - 1];
      var last := lines[n - 1];
      var prev := ScanLines(prefix, predict, log2);
      var st := ScanLines(lines, predict, log2);
      ScanLinesMeetsSpec(prefix, predict, log2);
      assert forall i :: 0 <= i < n - 1 ==> prefix[i] == lines[i];
      if st == prev {
        if prev.maxScore != 0.0 {
          var i :| FirstMaximal(prefix, i, prev, predict, log2);
          assert FirstMaximal(lines, i, st, predict, log2);
        }
      } else {
        assert FirstMaximal(lines, n - 1, st, predict, log2);
      }
    }
  }

  /** At most one state meets the specification. */
  lemma ScanResultUnique(lines: seq<string>, a: ScanState, b: ScanState, predict: Features -> real, log2: real -> real)
    requires IsScanResult(lines, a, predict, log2)
    requires IsScanResult(lines, b, predict, log2)
    ensures a == b
  {
    if a.maxScore != 0.0 {
      var i :| FirstMaximal(lines, i, a, predict, log2);
      assert b.maxScore != 0.0;
    }
    if b.maxScore != 0.0 {
      var j :| FirstMaximal(lines, j, b, predict, log2);
      assert a.maxScore != 0.0;
      var i :| FirstMaximal(lines, i, a, predict, log2);
      assert a.maxScore == b.maxScore;
      assert i == j;
    }
  }

  /** The loop computes exactly the specified state. */
  lemma ScanLinesCharacterised(lines: seq<string>, st: ScanState, predict: Features -> real, log2: real -> real)
    ensures IsScanResult(lines, st, predict, log2) <==> st == ScanLines(lines, predict, log2)
  {
    ScanLinesMeetsSpec(lines, predict, log2);
    if IsScanResult(lines, st, predict, log2) {
      ScanResultUnique(lines, st, ScanLines(lines, predict, log2), predict, log2);
    }
  }

  /** A line that does not qualify changes nothing, wherever it stands and
      whatever it holds. */
  lemma {:induction false} ScanLinesSkipsLine(a: seq<string>, line: string, b: seq<string>, predict: Features -> real, log2: real -> real)
    requires !Qualifies(line)
    ensures ScanLines(a + [line] + b, predict, log2) == ScanLines(a + b, predict, log2)
    decreases |b|
  {
    if |b| == 0 {
      assert (a + [line] + b)[..|a|] == a;
      assert a + b == a;
    } else {
      var b' := b[..|b| - 1];
      ScanLinesSkipsLine(a, line, b', predict, log2);
      assert (a + [line] + b)[..|a| + |b|] == a + [line] + b';
      assert (a + b)[..|a| + |b| - 1] == a + b';
    }
  }

  /** The lines that qualify. */
  function QualifyingLines(lines: seq<string>): (r: seq<string>)
    ensures forall i :: 0 <= i < |r| ==> Qualifies(r[i])
    ensures forall l :: l in lines && Qualifies(l) <==> l in r
    decreases |lines|
  {
    if |lines| == 0 then []
    else
      var last := lines[|lines| - 1];
      var prefix := lines[..|lines| - 1];
      assert lines == prefix + [last];
      QualifyingLines(prefix) + (if Qualifies(last) then [last] else [])
  }

  /** Scanning a file is scanning its qualifying lines alone. */
  lemma {:induction false} ScanLinesOfQualifying(lines: seq<string>, predict: Features -> real, log2: real -> real)
    ensures ScanLines(QualifyingLines(lines), predict, log2) == ScanLines(lines, predict, log2)
    decreases |lines|
  {
    if |lines| > 0 {
      var last := lines[|lines| - 1];
      var prefix := lines[..|lines| - 1];
      ScanLinesOfQualifying(prefix, predict, log2);
      var q := QualifyingLines(prefix) + [last];
      if Qualifies(last) {
        assert q[..|q| - 1] == QualifyingLines(prefix);
      } else {
        assert QualifyingLines(lines) == QualifyingLines(prefix);
      }
    }
  }

  /** Characters of a class the padding lacks are all in the core. */
  lemma PaddedCount(pad: string, core: string, p: char -> bool)
    requires forall i :: 0 <= i < |pad| ==> !p(pad[i])
    ensures Count(pad + core, p) == Count(core, p)
  {
    CountAppend(pad, core, p);
    CountAll(pad, c => !p(c));
    CountComplement(pad, p);
  }

  /** The scanner takes the features of the line as it stands: padding
      whitespace adds nothing to the class counts but does lengthen the
      denominator, so the ratios are those of the stripped text diluted by
      the padding. */
  lemma ScoresUnstrippedLine(pad: string, core: string, log2: real -> real)
    requires forall i :: 0 <= i < |pad| ==> IsWhitespace(pad[i])
    requires |core| > 0
    ensures ExtractFeatures(pad + core, log2).digitRatio
         == Count(core, IsDigit) as real / (|pad| + |core|) as real
    ensures ExtractFeatures(pad + core, log2).punctuationRatio
         == Count(core, IsPunctuation) as real / (|pad| + |core|) as real
    ensures ExtractFeatures(pad + core, log2).upperRatio
         == Count(core, IsUpper) as real / (|pad| + |core|) as real
  {
    var line := pad + core;
    var n := |line|;
    assert n == |pad| + |core|;
    var f := ExtractFeatures(line, log2);
    PaddedCount(pad, core, IsDigit);
    PaddedCount(pad, core, IsPunctuation);
    PaddedCount(pad, core, IsUpper);
    assert f.digitRatio == Count(line, IsDigit) as real / n as real;
    assert f.punctuationRatio == Count(line, IsPunctuation) as real / n as real;
    assert f.upperRatio == Count(line, IsUpper) as real / n as real;
  }

  // ----- one file -----

  /** The outcome of `open(path).read()` with UTF-8 decoding. */
  datatype ReadOutcome = Read(content: string) | Unreadable

  /** What `scan_file` reports: an exempt path, a file it could not read,
      a safe file, or an unsafe one with the line and score it prints. */
  datatype FileReport = Exempt | Skipped | Safe | Unsafe(line: string, score: real)

  /** The boolean `scan_file` returns. */
  predicate Passes(r: FileReport) {
    !r.Unsafe?
  }

  /** Paths of the scanner and the training script are never scanned. */
  predicate IsExemptPath(path: string) {
    Contains(path, "git_guard.py") || Contains(path, "train_local.py")
  }

  /** `scan_file`: the file system `fs` is consulted only for a path that
      is not exempt; an unreadable file is skipped as safe. */
  function ScanFile(path: string, fs: string -> ReadOutcome, predict: Features -> real, log2: real -> real): (r: FileReport)
    ensures IsExemptPath(path) <==> r == Exempt
    ensures r == Skipped <==> !IsExemptPath(path) && fs(path) == Unreadable
    ensures r.Unsafe? ==> r.score > Threshold
    ensures r.Unsafe? ==> IsScanResult(Split(fs(path).content), ScanState(r.score, r.line), predict, log2)
  {
    if Contains(path, "git_guard.py") then Exempt
    else if Contains(path, "train_local.py") then Exempt
    else
      match fs(path)
      case Unreadable => Skipped
      case Read(content) =>
        var lines := Split(content);
        var st := ScanLines(lines, predict, log2);
        ScanLinesMeetsSpec(lines, predict, log2);
        if st.maxScore > Threshold then Unsafe(st.suspiciousLine, st.maxScore) else Safe
  }

  /** A file fails exactly when it is not exempt, it was read, and one of
      its qualifying lines scores strictly above the threshold. */
  lemma ScanFileFailsIff(path: string, fs: string -> ReadOutcome, predict: Features -> real, log2: real -> real)
    ensures !Passes(ScanFile(path, fs, predict, log2)) <==>
      && !IsExemptPath(path)
      && fs(path).Read?
      && exists i :: 0 <= i < |Split(fs(path).content)| && Qualifies(Split(fs(path).content)[i])
                     && LineScore(Split(fs(path).content)[i], predict, log2) > Threshold
  {
    if !IsExemptPath(path) && fs(path).Read? {
      var lines := Split(fs(path).content);
      ScanLinesMeetsSpec(lines, predict, log2);
      var st := ScanLines(lines, predict, log2);
      assert !Contains(path, "git_guard.py") && !Contains(path, "train_local.py");
      if st.maxScore > Threshold {
        assert ScanFile(path, fs, predict, log2) == Unsafe(st.suspiciousLine, st.maxScore);
        var i :| FirstMaximal(lines, i, st, predict, log2);
        assert 0 <= i < |lines| && Qualifies(lines[i]) && LineScore(lines[i], predict, log2) > Threshold;
      } else {
        assert ScanFile(path, fs, predict, log2) == Safe;
      }
    }
  }

  /** A file none of whose lines qualifies passes, whatever the classifier. */
  lemma NoQualifyingLinePasses(path: string, fs: string -> ReadOutcome, predict: Features -> real, log2: real -> real)
    requires fs(path).Read?
    requires forall line :: line in Split(fs(path).content) ==> !Qualifies(line)
    ensures Passes(ScanFile(path, fs, predict, log2))
  {
    ScanFileFailsIff(path, fs, predict, log2);
  }

  /** A path naming the scanner or the training script is exempt for every
      file system, so its contents are never looked at. */
  lemma ExemptPathsNotRead(a: string, b: string, fs: string -> ReadOutcome, predict: Features -> real, log2: real -> real)
    ensures ScanFile(a + "git_guard.py" + b, fs, predict, log2) == Exempt
    ensures ScanFile(a + "train_local.py" + b, fs, predict, log2) == Exempt
  {
    ContainsInfix(a, "git_guard.py", b);
    ContainsInfix(a, "train_local.py", b);
  }
}

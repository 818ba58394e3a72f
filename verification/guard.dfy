/** The entry point: load the classifier, scan every path given on the
    command line, and exit 1 when any file was found unsafe. */
module Guard {
  import opened FeatureExtraction
  import opened Scanner

  /** The outcome of loading the saved model next to the scanner. */
  datatype Classifier = Unavailable | Loaded(predict: Features -> real)

  /** The whole run: the reports of the files scanned, in argument order,
      and the process exit status. A classifier that failed to load lets
      everything through without scanning; otherwise every path is scanned,
      also after an unsafe one has been found. */
  method RunGuard(paths: seq<string>, fs: string -> ReadOutcome, classifier: Classifier, log2: real -> real)
    returns (reports: seq<FileReport>, exitCode: int)
    ensures exitCode == 0 || exitCode == 1
    ensures classifier.Unavailable? ==> reports == [] && exitCode == 0
    ensures classifier.Loaded? ==>
      && |reports| == |paths|
      && forall i :: 0 <= i < |paths| ==> reports[i] == ScanFile(paths[i], fs, classifier.predict, log2)
    ensures exitCode == 1 <==>
      && classifier.Loaded?
      && exists i :: 0 <= i < |paths| && !Passes(ScanFile(paths[i], fs, classifier.predict, log2))
  {
    if classifier.Unavailable? {
      return [], 0;
    }
    if |paths| == 0 {
      return [], 0;
    }
    var predict := classifier.predict;
    var allSafe := true;
    reports := [];
    for k := 0 to |paths|
      invariant |reports| == k
      invariant forall i :: 0 <= i < k ==> reports[i] == ScanFile(paths[i], fs, predict, log2)
      invariant allSafe <==> forall i :: 0 <= i < k ==> Passes(reports[i])
    {
      var report := ScanFile(paths[k], fs, predict, log2);
      reports := reports + [report];
      if !Passes(report) {
        allSafe := false;
      }
    }
    exitCode := if allSafe then 0 else 1;
  }
}

/**
 * One run of the tool: the diagnostics gate, the manifest symbol resolver, the
 * unmatched-entry report, the annotation classifier and the line-deletion
 * engine, in that order. The compilation, the manifest and the text of every
 * syntax tree are inputs; the console reports and the file writes are the
 * outcome.
 */
module Pipeline {
  import opened Entities
  import opened Gate
  import opened Resolver
  import opened Classifier
  import opened Rewriter

  datatype Outcome =
      /** The gate found diagnostics outside the allow-list: they are reported and nothing else happens. */
    | Halted(issues: seq<string>)
      /**
       * The audit ran: manifest entries not found, the Found and Missing
       * reports, the files written in order, and the failure that stopped the
       * rewriting early, if any.
       */
    | Completed(notFound: set<string>, found: nat, missing: seq<Symbol>,
                writes: seq<Write>, failure: Option<Failure>)

  /**
   * diagnostics are the ids of the compilation's diagnostics, root its global
   * namespace, manifest the recorded API ids, and source(f) the text of the
   * syntax tree of file f.
   */
  method Run(diagnostics: seq<string>, root: Symbol, manifest: set<string>, source: string -> seq<char>)
    returns (o: Outcome)
    requires root.NamespaceOrType?
    ensures o.Halted? <==> exists i :: 0 <= i < |diagnostics| && diagnostics[i] !in AllowList
    ensures o.Halted? ==> o.issues == Offending(diagnostics)
    ensures o.Completed? ==>
      var symbols := Collect(root.members, manifest);
      && (forall e :: e in o.notFound <==>
            e in manifest && forall i :: 0 <= i < |symbols| ==> symbols[i].docId != Some(e))
      && o.found == |MarkedIndices(symbols)|
      && o.missing == Missing(symbols, MarkedIndices(symbols))
    ensures o.Completed? ==>
      var locations := AllMarkerSites(Collect(root.members, manifest));
      && WrittenInOrder(locations, source, o.writes)
      && (o.failure == None <==> |o.writes| == |Files(locations)|)
      && (o.failure != None ==>
            var f := Files(locations)[|o.writes|];
            Rewrite(locations, source, f).OutOfRange? &&
            o.failure == Some(PositionOutOfRange(f, Rewrite(locations, source, f).position)))
      && (forall w :: w in o.writes ==> exists l :: l in locations && l.file == w.file)
      && (forall i, j :: 0 <= i < j < |o.writes| ==> o.writes[i].file != o.writes[j].file)
      && (o.failure == None ==> forall l :: l in locations ==> exists w :: w in o.writes && w.file == l.file)
      && (AllOnDistinctLines(locations, source) ==>
            o.failure == None && forall w :: w in o.writes ==> LinesDeleted(locations, source, w))
  {
    var hasIssues, issues := CheckDiagnostics(diagnostics);
    if hasIssues {
      return Halted(issues);
    }

    var receiver := new SymbolList();
    GetSymbols(root, manifest, receiver);
    var symbols := receiver.items;
    assert symbols == Collect(root.members, manifest);

    var notFound := ReportUnmatched(manifest, symbols);

    var locations, processed := Classify(symbols);
    assert processed == MarkedIndices(symbols);
    var missing := Missing(symbols, processed);

    var writes, failure := RewriteAll(locations, source);
    WrittenFiles(locations, source, writes, failure);
    o := Completed(notFound, |processed|, missing, writes, failure);
  }
}

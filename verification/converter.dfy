/** One invocation of converter.py from the source-directory check to the
    final message (lines 72-139). Directory listings, the interactive answer
    and the encoder are inputs; nothing here touches a file system. */
module Converter {
  import opened Wrappers
  import opened Paths
  import opened Dimensions
  import opened WorkSet
  import opened Transcode
  import opened Report

  /** What a run observes: whether the source exists and what it lists,
      whether the destination exists and the names it lists, the operator's
      answer to the creation prompt, and the parsed `WIDTH`/`HEIGHT`. */
  datatype Invocation = Invocation(
    sourceExists: bool,
    source: seq<Entry>,
    destExists: bool,
    destNames: seq<string>,
    createDest: bool,
    request: Request)

  /** How a run ends: an exit before any file is written, a crash inside or
      after the loop that leaves the files already saved on disk, or the
      printed summary. */
  datatype Outcome =
    | Exited(reason: Failure)
    | Crashed(reason: Failure, written: seq<Output>)
    | Completed(summary: Summary, written: seq<Output>)

  /** Entries kept from a valid listing are valid. */
  lemma KeptValid(source: seq<Entry>, work: seq<Entry>)
    requires AllValid(source)
    requires forall e :: e in work ==> e in source
    ensures AllValid(work)
  {
    forall i | 0 <= i < |work|
      ensures ValidEntry(work[i])
    {
      assert work[i] in source;
      var k :| 0 <= k < |source| && source[k] == work[i];
    }
  }

  /** The whole script. */
  function Run(inv: Invocation, encode: (Entry, Dims) -> nat): (r: Outcome)
    requires AllValid(inv.source)
    ensures r == Exited(SourceMissing) <==> !inv.sourceExists
    ensures r.Exited? ==> r.reason in {SourceMissing, NothingNew, CreationDeclined}
    ensures r.Crashed? ==> r.reason in {Undecodable, MissingHeight, ZeroTotal}
    ensures r.Completed? ==>
              && r.summary.converted == |r.written|
              && r.summary.newBytes == WrittenBytes(r.written)
              && r.summary.saved == r.summary.originalBytes - r.summary.newBytes
              && r.summary.originalBytes > 0
  {
    if !inv.sourceExists then Exited(SourceMissing)
    else
      match Build(inv.destExists, inv.destNames, inv.createDest, inv.source)
      case Err(f) => Exited(f)
      case Ok(work) =>
        KeptValid(inv.source, work);
        var batch := Convert(inv.request, work, encode);
        FailureCause(inv.request, work, encode, true);
        if batch.failure.Some? then Crashed(batch.failure.value, batch.written)
        else
          match Summarize(|work|, TotalBytes(work), WrittenBytes(batch.written))
          case Err(f) => Crashed(f, batch.written)
          case Ok(s) => Completed(s, batch.written)
  }

  /** An existing destination: the run exits with "nothing new" exactly
      when every source stem is already among the destination's stems; a
      source entry with a new stem is converted whatever its extension. */
  lemma NothingNewExit(inv: Invocation, encode: (Entry, Dims) -> nat)
    requires AllValid(inv.source) && inv.sourceExists && inv.destExists
    ensures Run(inv, encode) == Exited(NothingNew) <==>
              forall e :: e in inv.source ==> Stem(e.name) in StemsOf(inv.destNames)
  {
  }

  /** A destination created on request takes every source entry, in listing
      order, with no emptiness check: an empty source reaches the summary
      and divides by zero. */
  lemma FreshDestinationTakesAll(inv: Invocation, encode: (Entry, Dims) -> nat)
    requires AllValid(inv.source) && inv.sourceExists && !inv.destExists && inv.createDest
    ensures var r := Run(inv, encode);
            && !r.Exited?
            && (r.Completed? ==> r.summary.converted == |inv.source| && r.summary.originalBytes == TotalBytes(inv.source))
            && (forall i :: 0 <= i < |r.written| ==> r.written[i].name == OutputName(Stem(inv.source[i].name)))
            && (inv.source == [] ==> r == Crashed(ZeroTotal, []))
  {
    AllConverted(inv.request, inv.source, encode, true);
  }

  /** The figures of a completed run: the original total is the size of the
      work-set, the new total adds up the encoder's size for each saved
      file, and each file is named after the stem of its entry. */
  lemma SummaryFigures(inv: Invocation, encode: (Entry, Dims) -> nat, work: seq<Entry>)
    requires AllValid(inv.source) && inv.sourceExists
    requires Build(inv.destExists, inv.destNames, inv.createDest, inv.source) == Ok(work)
    requires Run(inv, encode).Completed?
    ensures var r := Run(inv, encode);
            && r.summary.converted == |work| == |r.written|
            && r.summary.originalBytes == TotalBytes(work)
            && r.summary.newBytes == WrittenBytes(r.written)
            && forall i :: 0 <= i < |work| ==>
                 r.written[i].name == OutputName(Stem(work[i].name)) &&
                 r.written[i].bytes == encode(work[i], r.written[i].size)
  {
    KeptValid(inv.source, work);
    AllConverted(inv.request, work, encode, true);
  }

  /** Rerun idempotence: once a run has completed and the destination holds
      what it held before plus every saved `{stem}.webp`, running again on
      the same source exits with "nothing new". */
  lemma RerunFindsNothing(inv: Invocation, encode: (Entry, Dims) -> nat, after: seq<string>)
    requires AllValid(inv.source) && inv.sourceExists
    requires Run(inv, encode).Completed?
    requires inv.destExists ==> forall n :: n in inv.destNames ==> n in after
    requires forall o :: o in Run(inv, encode).written ==> o.name in after
    ensures Run(inv.(destExists := true, destNames := after), encode) == Exited(NothingNew)
  {
    var r := Run(inv, encode);
    var work := Build(inv.destExists, inv.destNames, inv.createDest, inv.source).value;
    SummaryFigures(inv, encode, work);
    forall e | e in inv.source
      ensures Stem(e.name) in StemsOf(after)
    {
      assert ValidEntry(e) by {
        var k :| 0 <= k < |inv.source| && inv.source[k] == e;
      }
      if e in work {
        var i :| 0 <= i < |work| && work[i] == e;
        assert r.written[i] in r.written;
        StemOfOutput(Stem(e.name));
      } else {
        var n :| n in inv.destNames && Stem(n) == Stem(e.name);
        assert n in after;
      }
    }
    NothingNewExit(inv.(destExists := true, destNames := after), encode);
  }

  /** A 4000x3000 `a.jpg` of 2,000,000 bytes, an existing empty destination
      and `--width 1000`: one file `a.webp` saved at 1000x750, and the
      savings are whatever the encoder leaves. */
  lemma WidthScenario(encode: (Entry, Dims) -> nat)
    ensures var a := Entry("a.jpg", 2000000, Some(Dims(4000, 3000)));
            var r := Run(Invocation(true, [a], true, [], false, Request(Some(1000), None)), encode);
            && r.Completed?
            && r.written == [Output("a.webp", Dims(1000, 750), Dims(1000, 750), encode(a, Dims(1000, 750)))]
            && r.summary.converted == 1
            && r.summary.saved == 2000000 - encode(a, Dims(1000, 750))
  {
    var a := Entry("a.jpg", 2000000, Some(Dims(4000, 3000)));
    var inv := Invocation(true, [a], true, [], false, Request(Some(1000), None));
    assert Stem("a.jpg") == "a" by {
      assert LastDot("a.jpg") == Some(1) by {
        assert "a.jpg"[..4] == "a.jp";
        assert "a.jp"[..3] == "a.j";
        assert "a.j"[..2] == "a.";
      }
    }
    assert StemsOf([]) == [];
    PendingKeepsAllNew([a], []);
    assert Build(true, [], false, [a]) == Ok([a]);
    var r := Run(inv, encode);
    Step(inv.request, [a], encode, true);
    var b := Convert(inv.request, [a], encode);
    assert [a][1..] == [];
    assert OutputName("a") == "a.webp";
    assert Derive(inv.request, Dims(4000, 3000)) == Ok(Dims(1000, 750));
    assert Fit(Dims(4000, 3000), Dims(1000, 750)) == Dims(1000, 750);
    assert b.written == [Output("a.webp", Dims(1000, 750), Dims(1000, 750), encode(a, Dims(1000, 750)))];
    assert b.failure.None?;
    assert WrittenBytes(b.written) == encode(a, Dims(1000, 750));
    assert r.written == b.written;
    assert r.Completed?;
  }
}

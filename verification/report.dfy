/** The summary printed after the loop (converter.py lines 123-124, 134 and
    136-139). */
module Report {
  import opened Wrappers
  import opened Arith
  import opened WorkSet
  import opened Transcode

  /** The figures the final message prints. */
  datatype Summary = Summary(converted: nat, originalBytes: nat, newBytes: nat, saved: int, percent: int)

  /** A sum of byte counts. It is zero exactly when every count is zero. */
  function Sum(xs: seq<nat>): (total: nat)
    ensures total == 0 <==> forall i :: 0 <= i < |xs| ==> xs[i] == 0
  {
    if |xs| == 0 then 0 else xs[0] + Sum(xs[1..])
  }

  /** The sum of the work-set entries' on-disk sizes. It is zero exactly
      when every entry is empty, which is when the percentage divides by zero. */
  function TotalBytes(entries: seq<Entry>): (total: nat)
    ensures total == 0 <==> forall i :: 0 <= i < |entries| ==> entries[i].bytes == 0
  {
    var sizes := seq(|entries|, i requires 0 <= i < |entries| => entries[i].bytes);
    assert forall i :: 0 <= i < |entries| ==> sizes[i] == entries[i].bytes;
    Sum(sizes)
  }

  /** The new total after the loop: the sizes returned for each saved file
      added up. It is zero exactly when every saved file is empty. */
  function WrittenBytes(outs: seq<Output>): (total: nat)
    ensures total == 0 <==> forall i :: 0 <= i < |outs| ==> outs[i].bytes == 0
  {
    var sizes := seq(|outs|, i requires 0 <= i < |outs| => outs[i].bytes);
    assert forall i :: 0 <= i < |outs| ==> sizes[i] == outs[i].bytes;
    Sum(sizes)
  }

  /** The figures of the final message. The percentage is
      `int(saved * 100 / original)`: truncated toward zero, and a
      ZeroDivisionError when nothing was there to begin with. Savings are
      reported as they are, negative when the output grew. */
  function Summarize(count: nat, original: nat, produced: nat): (r: Result<Summary>)
    ensures r.Err? <==> original == 0
    ensures r.Err? ==> r.error == ZeroTotal
    ensures r.Ok? ==> r.value.converted == count && r.value.originalBytes == original && r.value.newBytes == produced
    ensures r.Ok? ==> r.value.saved + produced == original
  {
    if original == 0 then Err(ZeroTotal)
    else
      var saved := original - produced;
      Ok(Summary(count, original, produced, saved, TruncDiv(saved * 100, original)))
  }

  /** What the printed percentage means: it is never above 100, it is 100
      exactly when every output is empty, its sign is the sign of the
      savings, and it is the whole part of the exact percentage. */
  lemma PercentMeaning(count: nat, original: nat, produced: nat)
    requires original > 0
    ensures var s := Summarize(count, original, produced).value;
            && s.percent <= 100
            && (s.percent == 100 <==> produced == 0)
            && (s.saved >= 0 ==> 0 <= s.percent && s.percent * original <= s.saved * 100 < s.percent * original + original)
            && (s.saved < 0 ==> s.percent <= 0 && s.percent * original - original < s.saved * 100 <= s.percent * original)
  {
    var s := Summarize(count, original, produced).value;
    var p := s.percent;
    TruncDivBounds(s.saved * 100, original);
    if s.saved >= 0 {
      assert p * original <= s.saved * 100 <= 100 * original;
      MulLeft(p, 100, original);
      if produced == 0 {
        assert 100 * original < (p + 1) * original;
        MulLeft(p + 1, 100, original);
      }
      if p == 100 {
        assert 100 * original <= s.saved * 100;
      }
    }
  }
}

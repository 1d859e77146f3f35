/** Which source entries a run converts (converter.py lines 82-100). */
module WorkSet {
  import opened Wrappers
  import opened Paths
  import opened Dimensions

  /** One entry of the source directory listing: its file name, its on-disk
      size, and its pixel size when PIL can open and decode it. There is no extension
      filter, so any entry may be undecodable. */
  datatype Entry = Entry(name: string, bytes: nat, pixels: Option<Dims>)

  /** Listings never hold empty names, and a decoded image has positive sides. */
  predicate ValidEntry(e: Entry)
  {
    |e.name| > 0 && (e.pixels.Some? ==> Native(e.pixels.value))
  }

  /** The stems of the destination's entries, in listing order. A stem is
      among them exactly when some listed name has it. */
  function StemsOf(names: seq<string>): (stems: seq<string>)
    ensures |stems| == |names|
    ensures forall i :: 0 <= i < |names| ==> stems[i] == Stem(names[i])
    ensures forall s :: s in stems <==> exists n :: n in names && Stem(n) == s
  {
    var stems := seq(|names|, i requires 0 <= i < |names| => Stem(names[i]));
    assert forall s :: s in stems ==> exists n :: n in names && Stem(n) == s by {
      forall s | s in stems
        ensures exists n :: n in names && Stem(n) == s
      {
        var k :| 0 <= k < |stems| && stems[k] == s;
        assert names[k] in names;
      }
    }
    assert forall n :: n in names ==> Stem(n) in stems by {
      forall n | n in names
        ensures Stem(n) in stems
      {
        var k :| 0 <= k < |names| && names[k] == n;
        assert stems[k] == Stem(n);
      }
    }
    stems
  }

  /** The source entries whose stem is not among `done`, in listing order. */
  function Pending(source: seq<Entry>, done: seq<string>): (r: seq<Entry>)
    ensures |r| <= |source|
    ensures forall e :: e in r <==> e in source && Stem(e.name) !in done
  {
    if |source| == 0 then []
    else (if Stem(source[0].name) in done then [] else [source[0]]) + Pending(source[1..], done)
  }

  /** Filtering a concatenated listing filters each part in turn: kept
      entries stay in source order. */
  lemma {:induction false} PendingAppend(a: seq<Entry>, b: seq<Entry>, done: seq<string>)
    ensures Pending(a + b, done) == Pending(a, done) + Pending(b, done)
  {
    if |a| == 0 {
      assert a + b == b;
    } else {
      assert (a + b)[1..] == a[1..] + b;
      PendingAppend(a[1..], b, done);
    }
  }

  /** When no source stem is already done, the filter keeps the listing as is. */
  lemma {:induction false} PendingKeepsAllNew(source: seq<Entry>, done: seq<string>)
    requires forall e :: e in source ==> Stem(e.name) !in done
    ensures Pending(source, done) == source
  {
    if |source| > 0 {
      PendingKeepsAllNew(source[1..], done);
    }
  }

  /** The outcome of the work-set step: the entries to convert, or the exit
      taken before any conversion. */
  function Build(destExists: bool, destNames: seq<string>, createDest: bool, source: seq<Entry>)
    : (r: Result<seq<Entry>>)
    ensures r.Err? ==> r.error in {NothingNew, CreationDeclined}
    ensures r == Err(NothingNew) <==>
              destExists && forall e :: e in source ==> Stem(e.name) in StemsOf(destNames)
    ensures r == Err(CreationDeclined) <==> !destExists && !createDest
    ensures r.Ok? && destExists ==>
              r.value != [] && forall e :: e in r.value <==> e in source && Stem(e.name) !in StemsOf(destNames)
    ensures r.Ok? && destExists ==> r.value == Pending(source, StemsOf(destNames))
    ensures r.Ok? && !destExists ==> r.value == source
  {
    if destExists then
      var work := Pending(source, StemsOf(destNames));
      if work == [] then Err(NothingNew)
      else assert work[0] in work; Ok(work)
    else if createDest then Ok(source)
    else Err(CreationDeclined)
  }
}

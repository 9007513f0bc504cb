/** `searchRegion` for one dimension: filter the directory listing down to
    region files, then scan each of them in listing order. The first failure
    anywhere ends the run. */
module Search {
  import opened Common
  import opened Entities
  import opened RegionFiles
  import opened SectorScan

  /** `region.Open` on a region file name, and the library calls the scan makes. */
  datatype Environment = Environment(open: string -> Result<Region, string>, lib: Library)

  /** What scanning one region file contributes. */
  function RegionReport(env: Environment, name: string): Trace<Record> {
    match env.open(name)
    case Err(m) => Abort(OpenFailed(m))
    case Ok(region) => ScanPrefix(region, env.lib, SectorCount)
  }

  /** The trace after the region files `names` have been scanned in order. */
  function SearchFiles(env: Environment, names: seq<string>): Trace<Record> {
    if names == [] then Done()
    else Then(SearchFiles(env, names[..|names| - 1]), RegionReport(env, names[|names| - 1]))
  }

  /** Scanning two lists of region files one after the other is scanning their
      concatenation; after a failure in the first list the second contributes
      nothing to the run. */
  lemma {:induction false} SearchFilesAppend(env: Environment, a: seq<string>, b: seq<string>)
    ensures SearchFiles(env, a + b) == Then(SearchFiles(env, a), SearchFiles(env, b))
    decreases |b|
  {
    if b == [] {
      assert a + b == a;
      ThenDone(SearchFiles(env, a));
    } else {
      var init := b[..|b| - 1];
      assert (a + b)[..|a + b| - 1] == a + init;
      SearchFilesAppend(env, a, init);
      ThenAssociative(SearchFiles(env, a), SearchFiles(env, init), RegionReport(env, b[|b| - 1]));
    }
  }

  /** Directory entries that are not region files play no part in the run:
      adding a rejected entry anywhere in the listing changes nothing. */
  lemma {:induction false} SearchIgnoresOtherEntries(env: Environment, a: seq<string>, other: string, b: seq<string>)
    requires !MatchesRegionFileName(other)
    ensures SearchFiles(env, Accepted(a + [other] + b)) == SearchFiles(env, Accepted(a + b))
  {
    AcceptedAppend(a + [other], b);
    AcceptedAppend(a, [other]);
    AcceptedAppend(a, b);
    assert Accepted([other]) == Accepted([]) + [] by {
      assert [other][..0] == [];
    }
    assert Accepted(a) + Accepted([other]) == Accepted(a);
  }

  /** The body of `searchRegion` after the directory has been listed. It
      returns the region list it built, the files it passed to `region.Open`,
      in order, and the trace of the run. */
  method SearchRegion(env: Environment, entries: seq<string>)
    returns (regions: seq<string>, visited: seq<string>, trace: Trace<Record>)
    ensures regions == Accepted(entries)
    ensures |visited| <= |regions| && visited == regions[..|visited|]
    ensures trace == SearchFiles(env, visited)
    ensures trace == SearchFiles(env, regions)
    ensures trace.failure.None? ==> visited == regions
    ensures trace.failure.Some? ==>
              0 < |visited| && SearchFiles(env, visited[..|visited| - 1]).failure.None?
  {
    regions := FilterRegionFiles(entries);
    trace, visited := Done(), [];
    for k := 0 to |regions|
      invariant visited == regions[..k]
      invariant trace == SearchFiles(env, regions[..k])
      invariant trace.failure.None?
    {
      assert regions[..k + 1][..k] == regions[..k];
      visited := visited + [regions[k]];
      var r := env.open(regions[k]);
      if r.Err? {
        trace := Then(trace, Abort(OpenFailed(r.error)));
        StopAtFailure(env, regions, k, trace);
        return;
      }
      var report, _, _ := ScanRegion(r.value, env.lib);
      trace := Then(trace, report);
      if trace.failure.Some? {
        StopAtFailure(env, regions, k, trace);
        return;
      }
    }
    assert regions[..|regions|] == regions;
  }

  /** A run that first fails at the (k+1)-th region file has the outcome of
      the whole list. */
  lemma StopAtFailure(env: Environment, regions: seq<string>, k: nat, trace: Trace<Record>)
    requires k < |regions|
    requires SearchFiles(env, regions[..k]).failure.None?
    requires trace == SearchFiles(env, regions[..k + 1]) && trace.failure.Some?
    ensures trace == SearchFiles(env, regions)
    ensures regions[..k + 1][..k] == regions[..k]
  {
    SearchAbortIsFinal(env, regions, k + 1);
  }

  /** A failure after the first k region files is the result of the whole run. */
  lemma {:induction false} SearchAbortIsFinal(env: Environment, names: seq<string>, k: nat)
    requires k <= |names|
    requires SearchFiles(env, names[..k]).failure.Some?
    ensures SearchFiles(env, names) == SearchFiles(env, names[..k])
  {
    assert names == names[..k] + names[k..];
    SearchFilesAppend(env, names[..k], names[k..]);
  }
}

/** The per-region loop of `searchRegion`: every (i, j) of the 32×32 grid in
    row-major order, and for each present sector read, `read`, decode and
    report. Any error ends the run. */
module SectorScan {
  import opened Common
  import opened Compression
  import opened Entities

  const GridSize: int := 32
  const SectorCount: int := 1024

  /** An opened region file, as far as the loop uses it: `r.ExistSector` and
      `r.ReadSector`. The container format is library code. */
  datatype Region = Region(
    existSector: (int, int) -> bool,
    readSector: (int, int) -> Result<seq<byte>, string>)

  /** The library calls made on each payload: the error of the gzip or zlib
      reader constructor (None when it succeeds), and NBT decoding of a `Chunk` from a decoder's stream. */
  datatype Library = Library(
    readerError: (Scheme, seq<byte>) -> Option<string>,
    decode: Stream -> Result<seq<Entity>, string>)

  datatype Coord = Coord(i: int, j: int)

  /** The k-th coordinate the loop visits. */
  function CoordAt(k: int): Coord {
    Coord(k / GridSize, k % GridSize)
  }

  /** The first n coordinates the loop visits. */
  function ScanOrder(n: nat): seq<Coord> {
    seq(n, k => CoordAt(k))
  }

  /** The coordinates of `cs` whose sector exists, in order. */
  function Present(region: Region, cs: seq<Coord>): (r: seq<Coord>)
    ensures |r| <= |cs|
  {
    if cs == [] then []
    else
      var c := cs[|cs| - 1];
      Present(region, cs[..|cs| - 1]) + (if region.existSector(c.i, c.j) then [c] else [])
  }

  /** What one grid cell contributes: nothing for an absent sector, otherwise
      the report of its chunk, or the failure of the first step that fails. */
  function ProcessSector(region: Region, lib: Library, c: Coord): (t: Trace<Record>)
    ensures |t.out| > 0 ==> region.existSector(c.i, c.j) && region.readSector(c.i, c.j).Ok?
  {
    if !region.existSector(c.i, c.j) then Done()
    else match region.readSector(c.i, c.j)
      case Err(m) => Abort(ReadSectorFailed(m))
      case Ok(data) =>
        if |data| == 0 then Abort(PayloadEmpty)
        else
          var rr := Read(data, lib.readerError);
          if rr.err.Some? then Abort(rr.err.value)
          else match lib.decode(rr.decoder.source)
            case Err(m) => Abort(DecodeFailed(m))
            case Ok(entities) => Select(entities)
  }

  /** The trace after the loop has visited its first n cells. */
  function ScanPrefix(region: Region, lib: Library, n: nat): (t: Trace<Record>)
    ensures t.failure.None? ==> forall k :: 0 <= k < n ==> ProcessSector(region, lib, CoordAt(k)).failure.None?
  {
    if n == 0 then Done()
    else Then(ScanPrefix(region, lib, n - 1), ProcessSector(region, lib, CoordAt(n - 1)))
  }

  lemma CoordAtRowMajor(i: int, j: int)
    requires 0 <= i < GridSize && 0 <= j < GridSize
    ensures CoordAt(GridSize * i + j) == Coord(i, j)
  {
  }

  /** The order visits each of the 1024 cells once, row by row (i outer, j
      inner), and nothing outside the grid. */
  lemma ScanOrderIsRowMajor()
    ensures |ScanOrder(SectorCount)| == SectorCount
    ensures forall i, j :: 0 <= i < GridSize && 0 <= j < GridSize ==>
              ScanOrder(SectorCount)[GridSize * i + j] == Coord(i, j)
    ensures forall k :: 0 <= k < SectorCount ==>
              0 <= ScanOrder(SectorCount)[k].i < GridSize && 0 <= ScanOrder(SectorCount)[k].j < GridSize
  {
    forall i, j | 0 <= i < GridSize && 0 <= j < GridSize
      ensures ScanOrder(SectorCount)[GridSize * i + j] == Coord(i, j)
    {
      CoordAtRowMajor(i, j);
    }
  }

  /** Once the run has failed, later cells change nothing. */
  lemma {:induction false} ScanAbortIsFinal(region: Region, lib: Library, n: nat, m: nat)
    requires n <= m
    requires ScanPrefix(region, lib, n).failure.Some?
    ensures ScanPrefix(region, lib, m) == ScanPrefix(region, lib, n)
    decreases m
  {
    if m > n {
      ScanAbortIsFinal(region, lib, n, m - 1);
    }
  }

  /** Printed lines are never taken back: the output after n cells is a prefix
      of the output after m cells. */
  lemma {:induction false} ScanOutputGrows(region: Region, lib: Library, n: nat, m: nat)
    requires n <= m
    ensures ScanPrefix(region, lib, n).out <= ScanPrefix(region, lib, m).out
    decreases m
  {
    if m > n {
      ScanOutputGrows(region, lib, n, m - 1);
    }
  }

  /** A region without sectors prints nothing and does not fail. */
  lemma {:induction false} ScanEmptyRegion(region: Region, lib: Library, n: nat)
    requires forall i, j :: 0 <= i < GridSize && 0 <= j < GridSize ==> !region.existSector(i, j)
    requires n <= SectorCount
    ensures ScanPrefix(region, lib, n) == Done()
  {
    if n > 0 {
      ScanEmptyRegion(region, lib, n - 1);
      ThenDone<Record>(Done());
    }
  }

  /** The steps for one cell, in the order the loop body takes them: an absent
      sector contributes nothing; otherwise the first step that fails ends the
      run with its error, and a chunk that decodes is reported. The stream
      decoded is the payload without its scheme byte, behind the scheme's
      decompressor. */
  lemma ProcessSectorSteps(region: Region, lib: Library, c: Coord)
    ensures !region.existSector(c.i, c.j) ==> ProcessSector(region, lib, c) == Done()
    ensures var rs := region.readSector(c.i, c.j);
            var t := ProcessSector(region, lib, c);
            region.existSector(c.i, c.j) ==>
            && (rs.Err? ==> t == Abort(ReadSectorFailed(rs.error)))
            && (rs.Ok? && |rs.value| == 0 ==> t == Abort(PayloadEmpty))
            && (rs.Ok? && |rs.value| > 0 && SchemeOf(rs.value[0]).None? ==> t == Abort(UnknownCompression))
            && (rs.Ok? && |rs.value| > 0 && SchemeOf(rs.value[0]).Some? ==>
                  var s, body := SchemeOf(rs.value[0]).value, rs.value[1..];
                  && (lib.readerError(s, body).Some? ==> t == Abort(NewReaderFailed(lib.readerError(s, body).value)))
                  && (lib.readerError(s, body).None? && lib.decode(Decompressing(s, body)).Err? ==>
                        t == Abort(DecodeFailed(lib.decode(Decompressing(s, body)).error)))
                  && (lib.readerError(s, body).None? && lib.decode(Decompressing(s, body)).Ok? ==>
                        t == Select(lib.decode(Decompressing(s, body)).value)))
  {
  }

  /** A cell ends the run exactly when its sector exists and reading fails,
      the payload is empty, the scheme byte is unknown, the decompressor's
      constructor fails, decoding fails, or a named entity lacks a full
      position. */
  lemma ProcessSectorFailsIff(region: Region, lib: Library, c: Coord)
    ensures var rs := region.readSector(c.i, c.j);
            ProcessSector(region, lib, c).failure.None? <==>
              || !region.existSector(c.i, c.j)
              || (&& rs.Ok? && |rs.value| > 0 && SchemeOf(rs.value[0]).Some?
                  && var s, body := SchemeOf(rs.value[0]).value, rs.value[1..];
                     && lib.readerError(s, body).None?
                     && lib.decode(Decompressing(s, body)).Ok?
                     && Printable(lib.decode(Decompressing(s, body)).value))
  {
    ProcessSectorSteps(region, lib, c);
    var rs := region.readSector(c.i, c.j);
    if region.existSector(c.i, c.j) && rs.Ok? && |rs.value| > 0 && SchemeOf(rs.value[0]).Some? {
      var s, body := SchemeOf(rs.value[0]).value, rs.value[1..];
      var d := lib.decode(Decompressing(s, body));
      if lib.readerError(s, body).None? && d.Ok? {
        SelectFailsIff(d.value);
      }
    }
  }

  /** The sectors that were read are exactly the visited cells whose sector
      exists. */
  lemma {:induction false} PresentMembers(region: Region, cs: seq<Coord>, c: Coord)
    ensures c in Present(region, cs) <==> c in cs && region.existSector(c.i, c.j)
  {
    if cs != [] {
      PresentMembers(region, cs[..|cs| - 1], c);
      assert cs == cs[..|cs| - 1] + [cs[|cs| - 1]];
    }
  }

  lemma ScanOrderSnoc(n: nat)
    ensures ScanOrder(n + 1) == ScanOrder(n) + [CoordAt(n)]
  {
  }

  /** One more visited cell extends the queried list and the read list. */
  lemma {:induction false} VisitStep(region: Region, lib: Library, queried: seq<Coord>, i: int, j: int)
    requires 0 <= i < GridSize && 0 <= j < GridSize
    requires queried == ScanOrder(GridSize * i + j)
    ensures queried + [Coord(i, j)] == ScanOrder(GridSize * i + j + 1)
    ensures ScanPrefix(region, lib, GridSize * i + j + 1)
            == Then(ScanPrefix(region, lib, GridSize * i + j), ProcessSector(region, lib, Coord(i, j)))
    ensures Present(region, queried + [Coord(i, j)])
            == Present(region, queried) + (if region.existSector(i, j) then [Coord(i, j)] else [])
  {
    CoordAtRowMajor(i, j);
    ScanOrderSnoc(GridSize * i + j);
    assert (queried + [Coord(i, j)])[..|queried|] == queried;
  }

  /** The body of the inner loop for a sector that exists: `ReadSector`,
      `read`, `Decode` and the report, each error going to `checkErr`. */
  method VisitSector(region: Region, lib: Library, c: Coord) returns (t: Trace<Record>)
    requires region.existSector(c.i, c.j)
    ensures t == ProcessSector(region, lib, c)
  {
    var data := region.readSector(c.i, c.j);
    if data.Err? {
      return Abort(ReadSectorFailed(data.error));
    }
    if |data.value| == 0 {
      return Abort(PayloadEmpty);
    }
    var rr := Read(data.value, lib.readerError);
    if rr.err.Some? {
      return Abort(rr.err.value);
    }
    var chunk := lib.decode(rr.decoder.source);
    if chunk.Err? {
      return Abort(DecodeFailed(chunk.error));
    }
    t := Select(chunk.value);
  }

  /** The nested `for i`/`for j` loop. It returns the report, the cells whose
      existence it queried and the cells whose sector it read. */
  method ScanRegion(region: Region, lib: Library) returns (trace: Trace<Record>, queried: seq<Coord>, read: seq<Coord>)
    ensures trace == ScanPrefix(region, lib, SectorCount)
    ensures queried == ScanOrder(|queried|) && 0 < |queried| <= SectorCount
    ensures trace == ScanPrefix(region, lib, |queried|)
    ensures trace.failure.None? ==> |queried| == SectorCount
    ensures trace.failure.Some? ==> ScanPrefix(region, lib, |queried| - 1).failure.None?
    ensures read == Present(region, queried)
  {
    trace, queried, read := Done(), [], [];
    for i := 0 to GridSize
      invariant queried == ScanOrder(GridSize * i)
      invariant read == Present(region, queried)
      invariant trace == ScanPrefix(region, lib, GridSize * i)
      invariant trace.failure.None?
    {
      for j := 0 to GridSize
        invariant queried == ScanOrder(GridSize * i + j)
        invariant read == Present(region, queried)
        invariant trace == ScanPrefix(region, lib, GridSize * i + j)
        invariant trace.failure.None?
      {
        VisitStep(region, lib, queried, i, j);
        queried := queried + [Coord(i, j)];
        if !region.existSector(i, j) {
          ThenDone(trace);
          continue;
        }
        read := read + [Coord(i, j)];
        var t := VisitSector(region, lib, Coord(i, j));
        trace := Then(trace, t);
        if trace.failure.Some? {
          ScanAbortIsFinal(region, lib, |queried|, SectorCount);
          return;
        }
      }
    }
  }
}

/**
 * `PandasExcelToDocument`: for each source, read its bytes, extract the sheet text, and emit
 * one document whose metadata is the byte stream's merged with the caller's. A source whose
 * bytes cannot be read, or whose extraction raises, is skipped.
 */
module ExcelConverter {
  import opened Wrappers
  import opened Indexing
  import opened SheetTrim
  import opened CsvRender
  import opened Metadata

  type Byte = bv8

  /** The bytes of one source and the metadata that came with them. */
  datatype ByteStream = ByteStream(data: seq<Byte>, meta: Meta)

  /**
   * One input source, as the outcome of resolving it to bytes (`None`: it could not be read).
   * What the source names is used only in the skip warnings, which are not modelled.
   */
  datatype Source = Source(stream: Option<ByteStream>)

  /** One named sheet of a workbook, as read with no header row. */
  datatype Sheet = Sheet(name: string, table: Table)

  /** The sheets of a workbook, in workbook order. */
  type Workbook = seq<Sheet>

  /** A workbook parser: the sheets of the given bytes, or `None` when they are not a workbook. */
  type Parser = seq<Byte> -> Option<Workbook>

  /** Why extraction raised. */
  datatype ExtractError =
    | Unparseable            // `pd.read_excel` raised
    | SheetMappingHasNoDropna // `.dropna` was called on the mapping of sheet names to frames

  /** The extraction step of `run`: the texts of a byte stream's tables, or the error it raised. */
  type Extractor = ByteStream -> Result<seq<string>, ExtractError>

  /** Why `run` raised: `tables[0]` on an empty list of tables, outside any `try`. */
  datatype RunError = NoTables

  /** A produced document. */
  datatype Document = Document(content: string, meta: Meta)

  /** The text lines 87-91 produce for one table: trimmed, then rendered as CSV. */
  function TableText(t: Table): string {
    RenderCsv(Trim(t))
  }

  /**
   * `_extract_tables` as written: with `sheet_name=None`, `pd.read_excel` returns a mapping of
   * sheet names to frames, and the mapping has no `dropna`, so every call raises.
   */
  function ExtractTables(bs: ByteStream, parse: Parser): (r: Result<seq<string>, ExtractError>)
    ensures r.Failure?
    ensures r.error == Unparseable <==> parse(bs.data).None?
  {
    match parse(bs.data)
    case None => Failure(Unparseable)
    case Some(_) => Failure(SheetMappingHasNoDropna)
  }

  /**
   * `_extract_tables` as its comment "Loads all sheets" and its `List[str]` result evidently
   * intend: read every sheet, trim and render each one, and return one text per sheet, in
   * workbook order.
   */
  function ExtractAllSheets(bs: ByteStream, parse: Parser): (r: Result<seq<string>, ExtractError>)
    ensures r.Success? <==> parse(bs.data).Some?
    ensures r.Failure? ==> r.error == Unparseable
    ensures r.Success? ==> |r.value| == |parse(bs.data).value|
    ensures r.Success? ==> forall i :: 0 <= i < |r.value| ==> r.value[i] == TableText(parse(bs.data).value[i].table)
  {
    match parse(bs.data)
    case None => Failure(Unparseable)
    case Some(sheets) => Success(seq(|sheets|, i requires 0 <= i < |sheets| => TableText(sheets[i].table)))
  }

  /**
   * `_extract_tables` read with one sheet only, the first (pandas' default `sheet_name=0`):
   * trim it, render it, and return the one text.
   */
  function ExtractFirstSheet(bs: ByteStream, parse: Parser): (r: Result<seq<string>, ExtractError>)
    ensures r.Success? <==> parse(bs.data).Some? && |parse(bs.data).value| > 0
    ensures r.Success? ==> |r.value| == 1 && r.value[0] == TableText(parse(bs.data).value[0].table)
  {
    match parse(bs.data)
    case None => Failure(Unparseable)
    case Some(sheets) => if |sheets| == 0 then Failure(Unparseable) else Success([TableText(sheets[0].table)])
  }

  /** `{**bytestream.meta, **metadata}`: every key of either, the caller's value winning on a clash. */
  function MergeMeta(streamMeta: Meta, callerMeta: Meta): (m: Meta)
    ensures m.Keys == streamMeta.Keys + callerMeta.Keys
    ensures forall k :: k in callerMeta ==> m[k] == callerMeta[k]
    ensures forall k :: k in streamMeta && k !in callerMeta ==> m[k] == streamMeta[k]
  {
    streamMeta + callerMeta
  }

  /** What one source contributes: nothing, one document, or the error that aborts the run. */
  datatype Step = Skip | Emit(doc: Document) | Abort

  /** The body of `run`'s loop for one source and its caller metadata. */
  function SourceStep(src: Source, meta: Meta, extract: Extractor): Step {
    match src.stream
    case None => Skip
    case Some(bs) =>
      match extract(bs)
      case Failure(_) => Skip
      case Success(tables) =>
        if |tables| == 0 then Abort else Emit(Document(tables[0], MergeMeta(bs.meta, meta)))
  }

  /** The result of `run` on the sources and their metadata, taken in order. */
  function Convert(sources: seq<Source>, metas: seq<Meta>, extract: Extractor): Result<seq<Document>, RunError>
    requires |sources| == |metas|
    decreases |sources|
  {
    if sources == [] then Success([])
    else
      var n := |sources| - 1;
      match Convert(sources[..n], metas[..n], extract)
      case Failure(e) => Failure(e)
      case Success(docs) =>
        match SourceStep(sources[n], metas[n], extract)
        case Skip => Success(docs)
        case Emit(d) => Success(docs + [d])
        case Abort => Failure(NoTables)
  }

  /** Once `run` has raised on a prefix of the sources, it has raised on them all. */
  lemma {:induction false} ConvertAbortIsFinal(sources: seq<Source>, metas: seq<Meta>, extract: Extractor, i: nat)
    requires |sources| == |metas| && i <= |sources|
    requires Convert(sources[..i], metas[..i], extract) == Failure(NoTables)
    ensures Convert(sources, metas, extract) == Failure(NoTables)
    decreases |sources|
  {
    if i < |sources| {
      var n := |sources| - 1;
      assert sources[..n][..i] == sources[..i] && metas[..n][..i] == metas[..i];
      ConvertAbortIsFinal(sources[..n], metas[..n], extract, i);
    } else {
      assert sources[..i] == sources && metas[..i] == metas;
    }
  }

  /** The indices of the sources that yield a document. */
  function Emitting(sources: seq<Source>, metas: seq<Meta>, extract: Extractor): seq<nat>
    requires |sources| == |metas|
  {
    Indices(|sources|, (i: nat) => i < |sources| && SourceStep(sources[i], metas[i], extract).Emit?)
  }

  /**
   * When no extraction returns an empty list of tables, `run` returns one document per source
   * that can be read and extracted, in source order; every other source is skipped without
   * stopping the rest.
   */
  lemma {:induction false} ConvertEmitsInOrder(sources: seq<Source>, metas: seq<Meta>, extract: Extractor)
    requires |sources| == |metas|
    requires forall i :: 0 <= i < |sources| ==> !SourceStep(sources[i], metas[i], extract).Abort?
    ensures Convert(sources, metas, extract).Success?
    ensures var docs, e := Convert(sources, metas, extract).value, Emitting(sources, metas, extract);
      |docs| == |e| && forall k :: 0 <= k < |e| ==> docs[k] == SourceStep(sources[e[k]], metas[e[k]], extract).doc
    decreases |sources|
  {
    if sources != [] {
      var n := |sources| - 1;
      var s, m := sources[..n], metas[..n];
      ConvertEmitsInOrder(s, m, extract);
      IndicesAgree(n, (i: nat) => i < |s| && SourceStep(s[i], m[i], extract).Emit?,
                      (i: nat) => i < |sources| && SourceStep(sources[i], metas[i], extract).Emit?);
    }
  }

  /** `run` raises exactly when some source that reads and extracts yields no tables at all. */
  lemma {:induction false} ConvertAbortsIff(sources: seq<Source>, metas: seq<Meta>, extract: Extractor)
    requires |sources| == |metas|
    ensures Convert(sources, metas, extract).Failure? <==>
      exists i :: 0 <= i < |sources| && SourceStep(sources[i], metas[i], extract).Abort?
    decreases |sources|
  {
    if sources != [] {
      var n := |sources| - 1;
      ConvertAbortsIff(sources[..n], metas[..n], extract);
      if Convert(sources[..n], metas[..n], extract).Failure? {
        var i :| 0 <= i < n && SourceStep(sources[..n][i], metas[..n][i], extract).Abort?;
        assert SourceStep(sources[i], metas[i], extract).Abort?;
      } else if exists i :: 0 <= i < |sources| && SourceStep(sources[i], metas[i], extract).Abort? {
        var i :| 0 <= i < |sources| && SourceStep(sources[i], metas[i], extract).Abort?;
        if i < n {
          assert SourceStep(sources[..n][i], metas[..n][i], extract).Abort?;
        }
      }
    }
  }

  /** As written, `run` produces no document at all, whatever the sources. */
  lemma {:induction false} ConvertAsWrittenEmitsNothing(sources: seq<Source>, metas: seq<Meta>, parse: Parser)
    requires |sources| == |metas|
    ensures Convert(sources, metas, bs => ExtractTables(bs, parse)) == Success([])
    decreases |sources|
  {
    if sources != [] {
      var n := |sources| - 1;
      ConvertAsWrittenEmitsNothing(sources[..n], metas[..n], parse);
    }
  }

  /**
   * With the first sheet extracted, `run` never raises, and emits, in source order, one document
   * for each source that reads and parses into at least one sheet, holding that sheet's trimmed
   * CSV text and the merged metadata.
   */
  lemma ConvertFirstSheets(sources: seq<Source>, metas: seq<Meta>, parse: Parser)
    requires |sources| == |metas|
    ensures var extract := bs => ExtractFirstSheet(bs, parse);
      var e := Emitting(sources, metas, extract);
      && Convert(sources, metas, extract).Success?
      && |Convert(sources, metas, extract).value| == |e|
      && (forall i :: 0 <= i < |sources| ==> (i in e <==>
            sources[i].stream.Some? && parse(sources[i].stream.value.data).Some?
            && |parse(sources[i].stream.value.data).value| > 0))
      && forall k :: 0 <= k < |e| ==>
           var bs := sources[e[k]].stream.value;
           Convert(sources, metas, extract).value[k] ==
             Document(TableText(parse(bs.data).value[0].table), MergeMeta(bs.meta, metas[e[k]]))
  {
    var extract := bs => ExtractFirstSheet(bs, parse);
    ConvertEmitsInOrder(sources, metas, extract);
    var e := Emitting(sources, metas, extract);
    forall i | 0 <= i < |sources| ensures i in e <==> SourceStep(sources[i], metas[i], extract).Emit? {
      IndicesMembership(|sources|, (i: nat) => i < |sources| && SourceStep(sources[i], metas[i], extract).Emit?, i);
    }
  }

  /** `run` gives the same result for two extraction steps that agree on what every source contributes. */
  lemma {:induction false} ConvertSameSteps(sources: seq<Source>, metas: seq<Meta>, e1: Extractor, e2: Extractor)
    requires |sources| == |metas|
    requires forall i :: 0 <= i < |sources| ==> SourceStep(sources[i], metas[i], e1) == SourceStep(sources[i], metas[i], e2)
    ensures Convert(sources, metas, e1) == Convert(sources, metas, e2)
    decreases |sources|
  {
    if sources != [] {
      var n := |sources| - 1;
      forall i | 0 <= i < n
        ensures SourceStep(sources[..n][i], metas[..n][i], e1) == SourceStep(sources[..n][i], metas[..n][i], e2)
      {
        assert sources[..n][i] == sources[i] && metas[..n][i] == metas[i];
      }
      ConvertSameSteps(sources[..n], metas[..n], e1, e2);
    }
  }

  /** A source whose bytes can be read but parse into a workbook without any sheet. */
  predicate SheetlessSource(src: Source, parse: Parser) {
    src.stream.Some? && parse(src.stream.value.data).Some? && |parse(src.stream.value.data).value| == 0
  }

  /**
   * With every sheet extracted, `run` raises exactly when some readable source parses into a
   * workbook without sheets (`tables[0]` of an empty list); otherwise its documents are those of
   * the first-sheet reading: each source's first sheet, since `run` uses `tables[0]` only.
   */
  lemma ConvertAllSheets(sources: seq<Source>, metas: seq<Meta>, parse: Parser)
    requires |sources| == |metas|
    ensures var all := bs => ExtractAllSheets(bs, parse);
      Convert(sources, metas, all).Failure? <==> exists i :: 0 <= i < |sources| && SheetlessSource(sources[i], parse)
    ensures (forall i :: 0 <= i < |sources| ==> !SheetlessSource(sources[i], parse)) ==>
      Convert(sources, metas, bs => ExtractAllSheets(bs, parse)) == Convert(sources, metas, bs => ExtractFirstSheet(bs, parse))
  {
    var all, first := bs => ExtractAllSheets(bs, parse), bs => ExtractFirstSheet(bs, parse);
    ConvertAbortsIff(sources, metas, all);
    forall i | 0 <= i < |sources| ensures SourceStep(sources[i], metas[i], all).Abort? <==> SheetlessSource(sources[i], parse) {
    }
    if forall i :: 0 <= i < |sources| ==> !SheetlessSource(sources[i], parse) {
      forall i | 0 <= i < |sources| ensures SourceStep(sources[i], metas[i], all) == SourceStep(sources[i], metas[i], first) {
        assert !SheetlessSource(sources[i], parse);
      }
      ConvertSameSteps(sources, metas, all, first);
    }
  }

  /**
   * `run`: the documents for the sources, taken in order, or the error that aborted it.
   * `metas` is the per-source metadata, already as long as `sources`.
   */
  method Run(sources: seq<Source>, metas: seq<Meta>, extract: Extractor) returns (r: Result<seq<Document>, RunError>)
    requires |sources| == |metas|
    ensures r == Convert(sources, metas, extract)
  {
    var documents: seq<Document> := [];
    for i := 0 to |sources|
      invariant Convert(sources[..i], metas[..i], extract) == Success(documents)
    {
      assert sources[..i + 1][..i] == sources[..i] && metas[..i + 1][..i] == metas[..i];
      var source, metadata := sources[i], metas[i];
      if source.stream.None? {
        continue;
      }
      var bytestream := source.stream.value;
      var tables := extract(bytestream);
      if tables.Failure? {
        continue;
      }
      if |tables.value| == 0 {
        assert Convert(sources[..i + 1], metas[..i + 1], extract) == Failure(NoTables);
        ConvertAbortIsFinal(sources, metas, extract, i + 1);
        r := Failure(NoTables);
        return;
      }
      var merged := MergeMeta(bytestream.meta, metadata);
      documents := documents + [Document(tables.value[0], merged)];
    }
    assert sources[..|sources|] == sources && metas[..|metas|] == metas;
    r := Success(documents);
  }
}

/** `main.py`: what the `/upload` handler does with each document once its
    text is known. The ten extracted amounts become an `InformeData`
    record, from which six criteria are computed: three ratios, the share
    of equity in total assets, and two flags comparing investments and
    inventories with half of the current assets. Each file adds one entry
    to the response, in order; a zero divisor is not caught and ends the
    whole request. */
module App {
  import opened Wrappers
  import opened Text
  import opened Decimals
  import opened Parsing

  // ---------------------------------------------------------------------
  // `InformeData` and `Criterios`
  // ---------------------------------------------------------------------

  /** The ten amounts of a balance sheet (`InformeData`). */
  datatype Informe = Informe(
    activoCorriente: Dec, pasivoCorriente: Dec, pasivoNoCorriente: Dec,
    efectivoLiquido: Dec, patrimonioNeto: Dec, fondosPropios: Dec,
    resultadoAntesImp: Dec, existencias: Dec, inversionesCp: Dec, riesgo: Dec)

  /** The aliases of the ten fields of `InformeData`. */
  const InformeKeys: set<string> := {
    "activo_corriente", "pasivo_corriente", "pasivo_no_corriente",
    "efectivo_liquido", "patrimonio_neto", "fondos_propios",
    "resultado_antes_imp", "existencias", "inversiones_cp", "riesgo"
  }

  /** `info.dict(by_alias=True)`: the record as a dictionary keyed by alias. */
  function AsDict(info: Informe): (d: map<string, Dec>)
    ensures d.Keys == InformeKeys
  {
    map[
      "activo_corriente" := info.activoCorriente,
      "pasivo_corriente" := info.pasivoCorriente,
      "pasivo_no_corriente" := info.pasivoNoCorriente,
      "efectivo_liquido" := info.efectivoLiquido,
      "patrimonio_neto" := info.patrimonioNeto,
      "fondos_propios" := info.fondosPropios,
      "resultado_antes_imp" := info.resultadoAntesImp,
      "existencias" := info.existencias,
      "inversiones_cp" := info.inversionesCp,
      "riesgo" := info.riesgo
    ]
  }

  /** `InformeData(**raw)`: every field is required and looked up by its
      alias; keys that are not fields are ignored. The values are decimals
      already, so a missing key is the only way to fail. */
  function MakeInforme(raw: map<string, Dec>): (r: Option<Informe>)
    ensures r.Some? <==> InformeKeys <= raw.Keys
    ensures r.Some? ==> forall key :: key in InformeKeys ==> AsDict(r.value)[key] == raw[key]
  {
    if InformeKeys <= raw.Keys then
      Some(Informe(
        raw["activo_corriente"], raw["pasivo_corriente"], raw["pasivo_no_corriente"],
        raw["efectivo_liquido"], raw["patrimonio_neto"], raw["fondos_propios"],
        raw["resultado_antes_imp"], raw["existencias"], raw["inversiones_cp"], raw["riesgo"]))
    else
      None
  }

  /** Building the record from its own dictionary gives it back. */
  lemma MakeInformeAsDict(info: Informe)
    ensures MakeInforme(AsDict(info)) == Some(info)
  {
  }

  /** The six criteria (`Criterios`). Each ratio is a whole number of
      hundredths: the decimal `quantize(Decimal("0.01"))` produces. */
  datatype Criterios = Criterios(
    ratioLiquidez: int, ratioEfDeudaNeta: int, ratioPatRiesgo: int, pctPatActivo: int,
    invGrupoMayor50Ac: bool, existenciasMayor50Ac: bool)

  /** Net debt: current plus non-current liabilities. */
  function DeudaNeta(info: Informe): real
  {
    Value(info.pasivoCorriente) + Value(info.pasivoNoCorriente)
  }

  /** `raw.get("activo_no_corriente", Decimal(0))` */
  function ActivoNoCorriente(raw: map<string, Dec>): real
  {
    if "activo_no_corriente" in raw then Value(raw["activo_no_corriente"]) else 0.0
  }

  /** Total assets: current assets plus whatever non-current assets `raw`
      holds. */
  function TotalActivo(info: Informe, raw: map<string, Dec>): real
  {
    Value(info.activoCorriente) + ActivoNoCorriente(raw)
  }

  /** The criteria block of `upload`. The divisions by current liabilities
      and by risk are not guarded: a zero there raises, so callers must
      rule it out. Equity over total assets is guarded and is zero when
      total assets are. Quotients are exact before they are rounded to
      hundredths, half to even. */
  function Criteria(info: Informe, raw: map<string, Dec>): Criterios
    requires Value(info.pasivoCorriente) != 0.0 && Value(info.riesgo) != 0.0
  {
    var ac := Value(info.activoCorriente);
    var rLiq := ac / Value(info.pasivoCorriente);
    var rEfDeu := (Value(info.efectivoLiquido) - DeudaNeta(info)) / Value(info.riesgo);
    var rPatRiesgo := Value(info.patrimonioNeto) / Value(info.riesgo);
    var totalAct := TotalActivo(info, raw);
    var pctPatAct := if totalAct != 0.0 then Value(info.patrimonioNeto) / totalAct else 0.0;
    Criterios(
      QuantizeCents(rLiq), QuantizeCents(rEfDeu), QuantizeCents(rPatRiesgo), QuantizeCents(pctPatAct),
      Value(info.inversionesCp) > ac * 0.5, Value(info.existencias) > ac * 0.5)
  }

  /** What each criterion is: the three ratios rounded to hundredths half
      to even, equity over total assets likewise or zero when total assets
      are zero, and each flag set exactly when its amount is more than half
      of the current assets. */
  lemma CriteriaMeaning(info: Informe, raw: map<string, Dec>)
    requires Value(info.pasivoCorriente) != 0.0 && Value(info.riesgo) != 0.0
    ensures var c := Criteria(info, raw);
      && RoundsToCents(Value(info.activoCorriente) / Value(info.pasivoCorriente), c.ratioLiquidez)
      && RoundsToCents((Value(info.efectivoLiquido) - DeudaNeta(info)) / Value(info.riesgo), c.ratioEfDeudaNeta)
      && RoundsToCents(Value(info.patrimonioNeto) / Value(info.riesgo), c.ratioPatRiesgo)
      && (TotalActivo(info, raw) == 0.0 ==> c.pctPatActivo == 0)
      && (TotalActivo(info, raw) != 0.0 ==> RoundsToCents(Value(info.patrimonioNeto) / TotalActivo(info, raw), c.pctPatActivo))
      && (c.invGrupoMayor50Ac <==> 2.0 * Value(info.inversionesCp) > Value(info.activoCorriente))
      && (c.existenciasMayor50Ac <==> 2.0 * Value(info.existencias) > Value(info.activoCorriente))
  {
  }

  // ---------------------------------------------------------------------
  // What extraction guarantees the handler
  // ---------------------------------------------------------------------

  /** The table's keys are exactly the record's aliases. */
  lemma FieldKeysAreInformeKeys()
    ensures FieldKeys == InformeKeys
  {
    assert FieldLabels[0].key == "activo_corriente";
    assert FieldLabels[1].key == "pasivo_corriente";
    assert FieldLabels[2].key == "pasivo_no_corriente";
    assert FieldLabels[3].key == "efectivo_liquido";
    assert FieldLabels[4].key == "patrimonio_neto";
    assert FieldLabels[5].key == "fondos_propios";
    assert FieldLabels[6].key == "resultado_antes_imp";
    assert FieldLabels[7].key == "existencias";
    assert FieldLabels[8].key == "inversiones_cp";
    assert FieldLabels[9].key == "riesgo";
    KeysDistinct();
  }

  /** A dictionary with exactly the record's aliases builds a record whose
      own dictionary it is. */
  lemma MakeInformeExact(raw: map<string, Dec>)
    requires raw.Keys == InformeKeys
    ensures MakeInforme(raw).Some? && AsDict(MakeInforme(raw).value) == raw
  {
    var d := AsDict(MakeInforme(raw).value);
    assert forall key :: key in raw ==> d[key] == raw[key];
  }

  /** A non-empty extraction always builds the record, and the record's
      dictionary is the extraction: the "Formatos inválidos" branch of
      `upload` cannot be taken. */
  lemma ExtractedInforme(text: string)
    requires Extract(text) != map[]
    ensures MakeInforme(Extract(text)).Some?
    ensures AsDict(MakeInforme(Extract(text)).value) == Extract(text)
  {
    var raw := Extract(text);
    ExtractAllOrNothing(text);
    FieldKeysAreInformeKeys();
    MakeInformeExact(raw);
  }

  /** For extracted amounts, non-current assets fall back to zero, so total
      assets are the current assets. */
  lemma ExtractedTotalActivo(text: string, info: Informe)
    ensures ActivoNoCorriente(Extract(text)) == 0.0
    ensures TotalActivo(info, Extract(text)) == Value(info.activoCorriente)
  {
    ExtractNoActivoNoCorriente(text);
  }

  // ---------------------------------------------------------------------
  // The loop over uploaded files
  // ---------------------------------------------------------------------

  /** What OCR of a file's page images gives, when it is attempted: their
      text joined, or the message of the exception it raised. */
  datatype OcrResult = OcrText(text: string) | OcrFailure(detail: string)

  /** An uploaded file as the handler sees it: its name, its native text
      (`pdf_to_text(...) or ""`), and what OCR would give. The native text
      is `None` when `pdftotext` exits with an error: `pdf_to_text` runs it
      with `check=True`, so the handler raises `CalledProcessError`, outside
      any `try`. */
  datatype FileInput = FileInput(filename: string, nativeText: Option<string>, ocr: OcrResult)

  datatype UploadError =
    | OcrError(detail: string)   // "Error en OCR: ..."
    | MissingAmounts             // "Faltan importes en el PDF"
    | InvalidFormats             // "Formatos inválidos: ..."

  /** One element of `resultados`. */
  datatype Entry =
    | Failure(filename: string, error: UploadError)
    | Success(filename: string, data: Informe, criterios: Criterios)

  /** What handling one file does: append an entry, or raise out of the
      handler. */
  datatype Step = Append(entry: Entry) | Raise

  /** The handler's outcome: the list of entries, or the exception raised
      while handling file number `file`, which ends the request. */
  datatype Response = Resultados(entries: seq<Entry>) | Aborted(file: nat)

  /** The text the handler reads once `pdf_to_text` has returned `native`:
      the native text, or for a document with only whitespace in it, the
      OCR text; `None` when OCR fails. */
  function DocumentText(native: string, ocr: OcrResult): (r: Option<string>)
    ensures Strip(native) != [] ==> r == Some(native)
    ensures Strip(native) == [] && ocr.OcrText? ==> r == Some(ocr.text)
    ensures Strip(native) == [] && ocr.OcrFailure? ==> r.None?
  {
    if Strip(native) != [] then Some(native)
    else match ocr
      case OcrFailure(_) => None
      case OcrText(t) => Some(t)
  }

  /** The text a file's amounts are read from, when `pdf_to_text` returned
      and OCR, if needed, succeeded. */
  function FileText(f: FileInput): Option<string>
  {
    match f.nativeText
    case None => None
    case Some(native) => DocumentText(native, f.ocr)
  }

  /** One pass of the loop body of `upload`. */
  function ProcessFile(f: FileInput): (s: Step)
    ensures s.Append? ==> s.entry.filename == f.filename
  {
    // `pdf_to_text` raises `CalledProcessError` out of the handler
    if f.nativeText.None? then Raise
    else
      match DocumentText(f.nativeText.value, f.ocr)
      case None => Append(Failure(f.filename, OcrError(f.ocr.detail)))
      case Some(text) =>
        var raw := Extract(text);
        if raw == map[] then Append(Failure(f.filename, MissingAmounts))
        else
          match MakeInforme(raw)
          case None => Append(Failure(f.filename, InvalidFormats))
          case Some(info) =>
            if info.pasivoCorriente.coef == 0 || info.riesgo.coef == 0 then Raise
            else
              ValueZeroIff(info.pasivoCorriente);
              ValueZeroIff(info.riesgo);
              Append(Success(f.filename, info, Criteria(info, raw)))
  }

  /** Which entry each path of the loop body appends: the OCR error with
      its message when OCR fails, "Faltan importes" for an empty
      extraction, and a `Success` for a non-empty one that does not raise. */
  lemma ProcessFileEntry(f: FileInput)
    ensures f.nativeText.Some? && FileText(f).None? ==>
              ProcessFile(f) == Append(Failure(f.filename, OcrError(f.ocr.detail)))
    ensures FileText(f).Some? && Extract(FileText(f).value) == map[] ==>
              ProcessFile(f) == Append(Failure(f.filename, MissingAmounts))
    ensures FileText(f).Some? && Extract(FileText(f).value) != map[] && !ProcessFile(f).Raise? ==>
              ProcessFile(f).Append? && ProcessFile(f).entry.Success?
  {
    if FileText(f).Some? && Extract(FileText(f).value) != map[] {
      ExtractedInforme(FileText(f).value);
    }
  }

  /** No file ever gets the "Formatos inválidos" entry. */
  lemma NeverInvalidFormats(f: FileInput)
    ensures ProcessFile(f) != Append(Failure(f.filename, InvalidFormats))
  {
    match FileText(f)
    case None =>
    case Some(text) =>
      if Extract(text) != map[] {
        ExtractedInforme(text);
        assert MakeInforme(Extract(text)).Some?;
      }
  }

  /** A file raises exactly when `pdftotext` fails on it, or when its
      amounts are all found and the current liabilities or the risk among
      them is zero. */
  lemma RaisesIff(f: FileInput)
    ensures ProcessFile(f).Raise? <==>
      || f.nativeText.None?
      || (&& FileText(f).Some?
          && var raw := Extract(FileText(f).value);
          && "pasivo_corriente" in raw && "riesgo" in raw
          && (Value(raw["pasivo_corriente"]) == 0.0 || Value(raw["riesgo"]) == 0.0))
  {
    if FileText(f).Some? {
      var raw := Extract(FileText(f).value);
      ExtractAllOrNothing(FileText(f).value);
      FieldKeysAreInformeKeys();
      if "pasivo_corriente" in raw && "riesgo" in raw {
        ValueZeroIff(raw["pasivo_corriente"]);
        ValueZeroIff(raw["riesgo"]);
        assert raw != map[];
        ExtractedInforme(FileText(f).value);
      }
    }
  }

  /** A successful entry holds the extracted amounts as its record, and
      its share of equity is taken over the current assets alone. */
  lemma SuccessEntry(f: FileInput)
    requires ProcessFile(f).Append? && ProcessFile(f).entry.Success?
    ensures FileText(f).Some?
    ensures AsDict(ProcessFile(f).entry.data) == Extract(FileText(f).value)
    ensures var info, c := ProcessFile(f).entry.data, ProcessFile(f).entry.criterios;
      && Value(info.pasivoCorriente) != 0.0 && Value(info.riesgo) != 0.0
      && c == Criteria(info, Extract(FileText(f).value))
      && (Value(info.activoCorriente) == 0.0 ==> c.pctPatActivo == 0)
      && (Value(info.activoCorriente) != 0.0 ==>
            RoundsToCents(Value(info.patrimonioNeto) / Value(info.activoCorriente), c.pctPatActivo))
  {
    var text := FileText(f).value;
    var raw := Extract(text);
    ExtractedInforme(text);
    var info := MakeInforme(raw).value;
    ValueZeroIff(info.pasivoCorriente);
    ValueZeroIff(info.riesgo);
    ExtractedTotalActivo(text, info);
    CriteriaMeaning(info, raw);
  }

  /** The response of the loop of `upload` when handling a file is
      `process`: the files are handled in order, each appending its entry,
      until one raises. */
  function Run(process: FileInput -> Step, files: seq<FileInput>): Response
    decreases |files|
  {
    if files == [] then Resultados([])
    else
      match Run(process, files[..|files| - 1])
      case Aborted(k) => Aborted(k)
      case Resultados(entries) =>
        match process(files[|files| - 1])
        case Raise => Aborted(|files| - 1)
        case Append(e) => Resultados(entries + [e])
  }

  /** The request completes exactly when no file raises, with one entry per
      file in input order; otherwise it ends at the first file that raises. */
  lemma {:induction false} RunMeaning(process: FileInput -> Step, files: seq<FileInput>)
    ensures var r := Run(process, files);
      && (r.Resultados? <==> forall k :: 0 <= k < |files| ==> process(files[k]).Append?)
      && (r.Resultados? ==> |r.entries| == |files|
                            && forall k :: 0 <= k < |files| ==> process(files[k]) == Append(r.entries[k]))
      && (r.Aborted? ==> r.file < |files| && process(files[r.file]).Raise?
                         && forall k :: 0 <= k < r.file ==> process(files[k]).Append?)
    decreases |files|
  {
    if files != [] {
      var front := files[..|files| - 1];
      RunMeaning(process, front);
      assert forall k :: 0 <= k < |front| ==> front[k] == files[k];
    }
  }

  /** Once a prefix of the files has raised, the rest are never handled. */
  lemma {:induction false} RunAbortedPrefix(process: FileInput -> Step, files: seq<FileInput>, n: nat)
    requires n <= |files| && Run(process, files[..n]).Aborted?
    ensures Run(process, files) == Run(process, files[..n])
    decreases |files| - n
  {
    if n < |files| {
      assert files[..n + 1][..n] == files[..n];
      RunAbortedPrefix(process, files, n + 1);
    } else {
      assert files[..n] == files;
    }
  }

  /** The body of the loop of `upload` for one file. */
  method HandleFile(file: FileInput) returns (s: Step)
    ensures s == ProcessFile(file)
  {
    if file.nativeText.None? {
      return Raise;
    }
    var text := file.nativeText.value;
    if Strip(text) == [] {
      if file.ocr.OcrFailure? {
        return Append(Failure(file.filename, OcrError(file.ocr.detail)));
      }
      text := file.ocr.text;
    }
    assert DocumentText(file.nativeText.value, file.ocr) == Some(text);
    var raw := ExtractValues(text);
    if raw == map[] {
      return Append(Failure(file.filename, MissingAmounts));
    }
    var info := MakeInforme(raw);
    if info.None? {
      return Append(Failure(file.filename, InvalidFormats));
    }
    if info.value.pasivoCorriente.coef == 0 || info.value.riesgo.coef == 0 {
      return Raise;
    }
    ValueZeroIff(info.value.pasivoCorriente);
    ValueZeroIff(info.value.riesgo);
    var criterios := Criteria(info.value, raw);
    return Append(Success(file.filename, info.value, criterios));
  }

  /** `upload(files)`: the files handled one by one as `ProcessFile` says,
      each error branch appending its entry and going on with the next
      file, until a file raises, which ends the request at that file. */
  method Upload(files: seq<FileInput>) returns (r: Response)
    ensures r == Run(ProcessFile, files)
  {
    var resultados: seq<Entry> := [];
    for i := 0 to |files|
      invariant Run(ProcessFile, files[..i]) == Resultados(resultados)
    {
      assert files[..i + 1][..i] == files[..i];
      var s := HandleFile(files[i]);
      if s.Raise? {
        RunAbortedPrefix(ProcessFile, files, i + 1);
        return Aborted(i);
      }
      resultados := resultados + [s.entry];
    }
    assert files[..|files|] == files;
    return Resultados(resultados);
  }

}

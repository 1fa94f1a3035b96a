/**
 The conversion engine of tes3conv: `convert_file`, which turns a plugin into
 JSON text or JSON text into a plugin, and the worker closure of
 `start_conversion`, which reports a failed conversion as progress -1.

 Everything the engine asks of the outside world is an oracle in `Env`: the
 file system (`exists`, `fs::write`, `fs::read_to_string`), the plugin codec
 (`Plugin::load_path`, `Plugin::save_path`) and serde_json. A run is then a
 pure function from the request and the oracles to the calls it makes, the
 progress values the receiver gets, and the result.
 */
module Conversion {

  import opened Results
  import Localizer
  import Paths

  /** The direction of a conversion. */
  datatype ConversionType = ToJson | ToPlugin

  /** The program's error kinds. A conversion produces only Io, Json, FileExists and Channel;
      Windows errors come from the user interface. */
  datatype Error =
    | Windows(reason: string)
    | Io(reason: string)
    | Json(reason: string)
    | FileExists(path: string)
    | Channel(unsent: int)

  /** The arguments of `convert_file`: input path, direction and the three option flags. */
  datatype Request = Request(
    input: string,
    kind: ConversionType,
    compact: bool,
    overwrite: bool,
    localize: bool)

  /** The outside world as the engine sees it. `Obj` is the plugin's object set, which the
      engine only passes between the plugin codec and serde_json. Every error is a message. */
  datatype Env<!Obj> = Env(
    pathExists: string -> bool,
    loadPlugin: string -> Result<Obj, string>,
    toJsonText: (Obj, bool) -> Result<string, string>,
    writeFile: (string, string) -> Result<(), string>,
    readFile: string -> Result<string, string>,
    fromJsonText: string -> Result<Obj, string>,
    savePlugin: (string, Obj) -> Result<(), string>)

  /** The receiving end of the progress channel: it either keeps listening, or is dropped after
      taking `accepted` values, after which every send fails. */
  datatype Receiver = Listening | DropsAfter(accepted: nat)

  /** Whether a send succeeds once `delivered` values have gone through. */
  predicate Accepts(rx: Receiver, delivered: nat) {
    rx.Listening? || delivered < rx.accepted
  }

  /** One call the engine makes into the outside world, in the order it makes them. */
  datatype Call<Obj> =
    | Probe(path: string)
    | Load(path: string)
    | Serialize(objects: Obj, compact: bool)
    | Write(path: string, text: string)
    | Read(path: string)
    | Parse(text: string)
    | Save(path: string, objects: Obj)
    | Send(value: int)

  /** What a run did: its calls, the progress values the receiver got, and its result. */
  datatype Run<Obj> = Run(calls: seq<Call<Obj>>, delivered: seq<int>, result: Result<(), Error>)

  /** The progress value that reports a failed conversion. */
  const Failed: int := -1

  /** The progress values of a successful conversion. */
  function SuccessTrace(kind: ConversionType): seq<int> {
    match kind
    case ToJson => [33, 100]
    case ToPlugin => [33, 66, 100]
  }

  /** The extension of the file a conversion writes. */
  function OutputExtension(kind: ConversionType): string {
    match kind
    case ToJson => "json"
    case ToPlugin => "esp"
  }

  /** The output path: the input path with its extension replaced (`PathBuf::with_extension`). */
  function OutputPath(input: string, kind: ConversionType): string {
    Paths.WithExtension(input, OutputExtension(kind))
  }

  /** The output path keeps the input's directory and file stem, whatever the input's extension
      was, and ends in the extension of the direction, with nothing after it; a path without a
      file name is kept as it is. */
  lemma OutputPathKeepsName(input: string, kind: ConversionType)
    ensures Paths.FileNameBounds(input).None? ==> OutputPath(input, kind) == input
    ensures Paths.FileNameBounds(input).Some? ==>
      var output := OutputPath(input, kind);
      && Paths.Directory(output) == Paths.Directory(input)
      && Paths.FileStem(output) == Paths.FileStem(input)
      && Paths.Extension(output) == Some(OutputExtension(kind))
      && output == Paths.Directory(input).value + Paths.FileStem(input).value + "." + OutputExtension(kind)
  {
    assert Paths.IsPlainExtension(OutputExtension(kind));
    Paths.WithExtensionKeepsName(input, OutputExtension(kind));
  }

  /** The plugin written back from an export's JSON output gets the name the plugin itself would
      get: replacing `json` by `esp` is the same as replacing the original extension by `esp`. */
  lemma OutputPathOfOutput(input: string)
    ensures OutputPath(OutputPath(input, ToJson), ToPlugin) == OutputPath(input, ToPlugin)
  {
    assert Paths.IsPlainExtension("json") && Paths.IsPlainExtension("esp");
    Paths.ReplaceTwice(input, "json", "esp");
  }

  /** The text an export writes: the serialized JSON, rewritten to Russian when localizing. */
  function ExportedText(json: string, localize: bool): string {
    if localize then Localizer.ToRussian(json) else json
  }

  /** The text an import parses: the file's contents, rewritten to 1C characters when localizing. */
  function ImportedText(contents: string, localize: bool): string {
    if localize then Localizer.FromRussian(contents) else contents
  }

  function Then<Obj>(run: Run<Obj>, call: Call<Obj>): Run<Obj> {
    run.(calls := run.calls + [call])
  }

  function Fail<Obj>(run: Run<Obj>, error: Error): Run<Obj> {
    run.(result := Err(error))
  }

  /** `progress_tx.send(value)`: the value reaches the receiver, or the send fails with the value. */
  function SendProgress<Obj>(run: Run<Obj>, rx: Receiver, value: int): Run<Obj> {
    var sending := Then(run, Send(value));
    if Accepts(rx, |run.delivered|) then sending.(delivered := run.delivered + [value])
    else Fail(sending, Channel(value))
  }

  /** The ToJson branch: load the plugin, report 33, serialize, localize, write, report 100. */
  function Export<Obj>(req: Request, output: string, env: Env<Obj>, rx: Receiver, start: Run<Obj>): (run: Run<Obj>)
    requires start.delivered == [] && start.result.Ok?
    ensures start.calls < run.calls
    ensures run.result.Ok? ==> run.delivered == SuccessTrace(ToJson)
    ensures run.result.Err? ==> run.delivered < SuccessTrace(ToJson) && !run.result.error.FileExists?
  {
    var loading := Then(start, Load(req.input));
    match env.loadPlugin(req.input)
    case Err(e) => Fail(loading, Io(e))
    case Ok(objects) =>
      var loaded := SendProgress(loading, rx, 33);
      if loaded.result.Err? then loaded
      else
        var serializing := Then(loaded, Serialize(objects, req.compact));
        match env.toJsonText(objects, req.compact)
        case Err(e) => Fail(serializing, Json(e))
        case Ok(json) =>
          var text := ExportedText(json, req.localize);
          var writing := Then(serializing, Write(output, text));
          match env.writeFile(output, text)
          case Err(e) => Fail(writing, Io(e))
          case Ok(_) => SendProgress(writing, rx, 100)
  }

  /** The ToPlugin branch: read the text, report 33, localize, parse, report 66, save, report 100. */
  function Import<Obj>(req: Request, output: string, env: Env<Obj>, rx: Receiver, start: Run<Obj>): (run: Run<Obj>)
    requires start.delivered == [] && start.result.Ok?
    ensures start.calls < run.calls
    ensures run.result.Ok? ==> run.delivered == SuccessTrace(ToPlugin)
    ensures run.result.Err? ==> run.delivered < SuccessTrace(ToPlugin) && !run.result.error.FileExists?
  {
    var reading := Then(start, Read(req.input));
    match env.readFile(req.input)
    case Err(e) => Fail(reading, Io(e))
    case Ok(contents) =>
      var read := SendProgress(reading, rx, 33);
      if read.result.Err? then read
      else
        var json := ImportedText(contents, req.localize);
        var parsing := Then(read, Parse(json));
        match env.fromJsonText(json)
        case Err(e) => Fail(parsing, Json(e))
        case Ok(objects) =>
          var parsed := SendProgress(parsing, rx, 66);
          if parsed.result.Err? then parsed
          else
            var saving := Then(parsed, Save(output, objects));
            match env.savePlugin(output, objects)
            case Err(e) => Fail(saving, Io(e))
            case Ok(_) => SendProgress(saving, rx, 100)
  }

  /** `convert_file`: derive the output path, refuse to overwrite an existing file unless allowed,
      then run the branch of the requested direction. */
  function ConvertFile<Obj>(req: Request, env: Env<Obj>, rx: Receiver): (run: Run<Obj>)
    ensures |run.calls| > 0 && run.calls[0] == Probe(OutputPath(req.input, req.kind))
    ensures run.result.Ok? ==> run.delivered == SuccessTrace(req.kind)
    ensures run.result.Err? ==> run.delivered < SuccessTrace(req.kind)
    ensures run.result == Err(FileExists(OutputPath(req.input, req.kind)))
        <==> env.pathExists(OutputPath(req.input, req.kind)) && !req.overwrite
  {
    var output := OutputPath(req.input, req.kind);
    var start := Run([Probe(output)], [], Ok(()));
    if env.pathExists(output) && !req.overwrite then Fail(start, FileExists(output))
    else
      match req.kind
      case ToJson => Export(req, output, env, rx, start)
      case ToPlugin => Import(req, output, env, rx, start)
  }

  /** The progress values of a failed conversion: part of the success sequence, then one -1. */
  predicate IsFailureTrace(kind: ConversionType, t: seq<int>) {
    |t| > 0 && t[|t| - 1] == Failed && t[..|t| - 1] < SuccessTrace(kind)
  }

  /** The worker closure of `start_conversion`: run `convert_file` and, if it failed, send -1,
      ignoring whether that send succeeds. The result is the conversion's own. */
  function Worker<Obj>(req: Request, env: Env<Obj>, rx: Receiver): (run: Run<Obj>)
    ensures run.delivered <= SuccessTrace(req.kind) || IsFailureTrace(req.kind, run.delivered)
    ensures rx.Listening? && run.result.Ok? ==> run.delivered == SuccessTrace(req.kind)
    ensures rx.Listening? && run.result.Err? ==> IsFailureTrace(req.kind, run.delivered)
  {
    var converted := ConvertFile(req, env, rx);
    if converted.result.Ok? then converted
    else
      var reported := SendProgress(converted, rx, Failed);
      reported.(result := converted.result)
  }
}

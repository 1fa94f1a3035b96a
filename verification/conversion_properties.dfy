/**
 Properties of the conversion engine: when a conversion succeeds, what it writes
 and parses, what the overwrite guard prevents, what a receiver that goes away
 sees, and how an export and a later import of its output fit together.
 */
module ConversionProperties {

  import opened Results
  import opened Conversion
  import Localizer
  import Paths

  /** The JSON text serialized from the loaded plugin, when both steps succeed. */
  function SerializedJson<Obj>(req: Request, env: Env<Obj>): Option<string> {
    match env.loadPlugin(req.input)
    case Err(_) => None
    case Ok(objects) =>
      match env.toJsonText(objects, req.compact)
      case Err(_) => None
      case Ok(json) => Some(json)
  }

  /** Whether the overwrite guard lets a request through. */
  predicate GuardPasses<Obj>(req: Request, env: Env<Obj>) {
    !(env.pathExists(OutputPath(req.input, req.kind)) && !req.overwrite)
  }

  /** Every stage of the requested direction succeeds and the receiver takes every progress value. */
  predicate StagesSucceed<Obj>(req: Request, env: Env<Obj>, rx: Receiver) {
    var output := OutputPath(req.input, req.kind);
    && GuardPasses(req, env)
    && Accepts(rx, |SuccessTrace(req.kind)| - 1)
    && match req.kind
       case ToJson =>
         && SerializedJson(req, env).Some?
         && env.writeFile(output, ExportedText(SerializedJson(req, env).value, req.localize)).Ok?
       case ToPlugin =>
         && env.readFile(req.input).Ok?
         && var json := ImportedText(env.readFile(req.input).value, req.localize);
         && env.fromJsonText(json).Ok?
         && env.savePlugin(output, env.fromJsonText(json).value).Ok?
  }

  /** A conversion succeeds exactly when every one of its stages does. */
  lemma SucceedsIffStagesSucceed<Obj>(req: Request, env: Env<Obj>, rx: Receiver)
    ensures ConvertFile(req, env, rx).result.Ok? <==> StagesSucceed(req, env, rx)
  {
  }

  /** When the output exists and overwriting is off, the run stops at the existence check: no load,
      read, parse, write or save, no progress, and the worker's -1 is the only value sent. */
  lemma GuardStopsBeforeWork<Obj>(req: Request, env: Env<Obj>, rx: Receiver)
    requires !GuardPasses(req, env)
    ensures var output := OutputPath(req.input, req.kind);
      && ConvertFile(req, env, rx).result == Err(FileExists(output))
      && ConvertFile(req, env, rx).calls == [Probe(output)]
      && Worker(req, env, rx).calls == [Probe(output), Send(Failed)]
      && Worker(req, env, rx).delivered == (if Accepts(rx, 0) then [Failed] else [])
  {
  }

  /** Whether a call sequence holds no write. */
  predicate NoWrites<Obj>(calls: seq<Call<Obj>>) {
    forall i | 0 <= i < |calls| :: !calls[i].Write?
  }

  /** Whether a call sequence holds no parse and no save. */
  predicate NoParsesOrSaves<Obj>(calls: seq<Call<Obj>>) {
    forall i | 0 <= i < |calls| :: !calls[i].Parse? && !calls[i].Save?
  }

  /** The export branch writes one text, to `output`, once the load, the report of 33 and the
      serialization have succeeded. */
  lemma ExportBranchWrites<Obj>(req: Request, output: string, env: Env<Obj>, rx: Receiver, start: Run<Obj>,
                                path: string, text: string)
    requires start.delivered == [] && start.result.Ok? && NoWrites(start.calls)
    ensures Write(path, text) in Export(req, output, env, rx, start).calls <==>
      && Accepts(rx, 0)
      && SerializedJson(req, env).Some?
      && path == output
      && text == ExportedText(SerializedJson(req, env).value, req.localize)
  {
    var calls := Export(req, output, env, rx, start).calls;
    assert Write(path, text) !in start.calls;
    if env.loadPlugin(req.input).Err? {
      assert calls == start.calls + [Load(req.input)];
    } else if !Accepts(rx, 0) {
      assert calls == start.calls + [Load(req.input), Send(33)];
    } else {
      var objects := env.loadPlugin(req.input).value;
      var prefix := start.calls + [Load(req.input), Send(33), Serialize(objects, req.compact)];
      if env.toJsonText(objects, req.compact).Err? {
        assert calls == prefix;
      } else {
        var written := ExportedText(env.toJsonText(objects, req.compact).value, req.localize);
        if env.writeFile(output, written).Ok? {
          assert calls == prefix + [Write(output, written), Send(100)];
        } else {
          assert calls == prefix + [Write(output, written)];
        }
      }
    }
  }

  /** An export writes exactly one text, to the output path: the serialized JSON as it is, or
      rewritten to Russian when localizing. It writes only after the load, the report of 33 and
      the serialization have succeeded. */
  lemma ExportWritesLocalizedText<Obj>(req: Request, env: Env<Obj>, rx: Receiver, path: string, text: string)
    requires req.kind == ToJson
    ensures Write(path, text) in ConvertFile(req, env, rx).calls <==>
      && GuardPasses(req, env)
      && Accepts(rx, 0)
      && SerializedJson(req, env).Some?
      && path == OutputPath(req.input, ToJson)
      && text == (if req.localize then Localizer.ToRussian(SerializedJson(req, env).value)
                  else SerializedJson(req, env).value)
  {
    var output := OutputPath(req.input, ToJson);
    if GuardPasses(req, env) {
      ExportBranchWrites(req, output, env, rx, Run([Probe(output)], [], Ok(())), path, text);
    } else {
      assert ConvertFile(req, env, rx).calls == [Probe(output)];
    }
  }

  /** The import branch parses one text, the localized contents, once the read and the report
      of 33 have succeeded. */
  lemma ImportBranchParses<Obj>(req: Request, output: string, env: Env<Obj>, rx: Receiver, start: Run<Obj>,
                                text: string)
    requires start.delivered == [] && start.result.Ok? && NoParsesOrSaves(start.calls)
    ensures Parse(text) in Import(req, output, env, rx, start).calls <==>
      && Accepts(rx, 0)
      && env.readFile(req.input).Ok?
      && text == ImportedText(env.readFile(req.input).value, req.localize)
  {
    var calls := Import(req, output, env, rx, start).calls;
    assert Parse(text) !in start.calls;
    if env.readFile(req.input).Err? {
      assert calls == start.calls + [Read(req.input)];
    } else if !Accepts(rx, 0) {
      assert calls == start.calls + [Read(req.input), Send(33)];
    } else {
      var json := ImportedText(env.readFile(req.input).value, req.localize);
      var prefix := start.calls + [Read(req.input), Send(33), Parse(json)];
      if env.fromJsonText(json).Err? {
        assert calls == prefix;
      } else if !Accepts(rx, 1) {
        assert calls == prefix + [Send(66)];
      } else {
        var parsed := env.fromJsonText(json).value;
        if env.savePlugin(output, parsed).Ok? {
          assert calls == prefix + [Send(66), Save(output, parsed), Send(100)];
        } else {
          assert calls == prefix + [Send(66), Save(output, parsed)];
        }
      }
    }
  }

  /** The import branch saves one object set, the parsed one, to `output`, once the read and the
      reports of 33 and 66 have succeeded. */
  lemma ImportBranchSaves<Obj>(req: Request, output: string, env: Env<Obj>, rx: Receiver, start: Run<Obj>,
                               path: string, objects: Obj)
    requires start.delivered == [] && start.result.Ok? && NoParsesOrSaves(start.calls)
    ensures Save(path, objects) in Import(req, output, env, rx, start).calls <==>
      && Accepts(rx, 1)
      && env.readFile(req.input).Ok?
      && env.fromJsonText(ImportedText(env.readFile(req.input).value, req.localize)) == Ok(objects)
      && path == output
  {
    var calls := Import(req, output, env, rx, start).calls;
    assert Save(path, objects) !in start.calls;
    if env.readFile(req.input).Err? {
      assert calls == start.calls + [Read(req.input)];
    } else if !Accepts(rx, 0) {
      assert calls == start.calls + [Read(req.input), Send(33)];
    } else {
      var json := ImportedText(env.readFile(req.input).value, req.localize);
      var prefix := start.calls + [Read(req.input), Send(33), Parse(json)];
      if env.fromJsonText(json).Err? {
        assert calls == prefix;
      } else if !Accepts(rx, 1) {
        assert calls == prefix + [Send(66)];
      } else {
        var parsed := env.fromJsonText(json).value;
        if env.savePlugin(output, parsed).Ok? {
          assert calls == prefix + [Send(66), Save(output, parsed), Send(100)];
        } else {
          assert calls == prefix + [Send(66), Save(output, parsed)];
        }
      }
    }
  }

  /** An import parses exactly one text: the file's contents as they are, or rewritten to 1C
      characters when localizing. It parses only after the read and the report of 33 succeeded. */
  lemma ImportParsesLocalizedText<Obj>(req: Request, env: Env<Obj>, rx: Receiver, text: string)
    requires req.kind == ToPlugin
    ensures Parse(text) in ConvertFile(req, env, rx).calls <==>
      && GuardPasses(req, env)
      && Accepts(rx, 0)
      && env.readFile(req.input).Ok?
      && text == (if req.localize then Localizer.FromRussian(env.readFile(req.input).value)
                  else env.readFile(req.input).value)
  {
    var output := OutputPath(req.input, ToPlugin);
    if GuardPasses(req, env) {
      ImportBranchParses(req, output, env, rx, Run([Probe(output)], [], Ok(())), text);
    } else {
      assert ConvertFile(req, env, rx).calls == [Probe(output)];
    }
  }

  /** An import saves exactly the parsed object set, to the output path, after the report of 66. */
  lemma ImportSavesParsedObjects<Obj>(req: Request, env: Env<Obj>, rx: Receiver, path: string, objects: Obj)
    requires req.kind == ToPlugin
    ensures Save(path, objects) in ConvertFile(req, env, rx).calls <==>
      && GuardPasses(req, env)
      && Accepts(rx, 1)
      && env.readFile(req.input).Ok?
      && env.fromJsonText(ImportedText(env.readFile(req.input).value, req.localize)) == Ok(objects)
      && path == OutputPath(req.input, ToPlugin)
  {
    var output := OutputPath(req.input, ToPlugin);
    if GuardPasses(req, env) {
      ImportBranchSaves(req, output, env, rx, Run([Probe(output)], [], Ok(())), path, objects);
    } else {
      assert ConvertFile(req, env, rx).calls == [Probe(output)];
    }
  }

  /** Malformed JSON fed to an import is reported after the read: the receiver gets 33, then -1. */
  lemma MalformedJsonReportsAfterRead<Obj>(req: Request, env: Env<Obj>)
    requires req.kind == ToPlugin && GuardPasses(req, env)
    requires env.readFile(req.input).Ok?
    requires env.fromJsonText(ImportedText(env.readFile(req.input).value, req.localize)).Err?
    ensures Worker(req, env, Listening).delivered == [33, Failed]
    ensures Worker(req, env, Listening).result.Err? && Worker(req, env, Listening).result.error.Json?
  {
  }

  /** The first `n` values of a trace. */
  function Take(t: seq<int>, n: nat): seq<int> {
    if n <= |t| then t[..n] else t
  }

  /** Under a receiver dropped after `n` values, an export runs as under a listening one while the
      receiver takes every value, and otherwise fails with exactly the first `n` values delivered. */
  lemma ExportUnderDrop<Obj>(req: Request, output: string, env: Env<Obj>, start: Run<Obj>, n: nat)
    requires start.delivered == [] && start.result.Ok?
    ensures var heard := Export(req, output, env, Listening, start);
      var cut := Export(req, output, env, DropsAfter(n), start);
      if n >= |heard.delivered| then cut == heard
      else cut.delivered == heard.delivered[..n] && cut.result.Err?
  {
  }

  /** As `ExportUnderDrop`, for an import. */
  lemma ImportUnderDrop<Obj>(req: Request, output: string, env: Env<Obj>, start: Run<Obj>, n: nat)
    requires start.delivered == [] && start.result.Ok?
    ensures var heard := Import(req, output, env, Listening, start);
      var cut := Import(req, output, env, DropsAfter(n), start);
      if n >= |heard.delivered| then cut == heard
      else cut.delivered == heard.delivered[..n] && cut.result.Err?
  {
  }

  /** As `ExportUnderDrop`, for a whole conversion. */
  lemma ConvertUnderDrop<Obj>(req: Request, env: Env<Obj>, n: nat)
    ensures var heard := ConvertFile(req, env, Listening);
      var cut := ConvertFile(req, env, DropsAfter(n));
      if n >= |heard.delivered| then cut == heard
      else cut.delivered == heard.delivered[..n] && cut.result.Err?
  {
    var output := OutputPath(req.input, req.kind);
    var start: Run<Obj> := Run([Probe(output)], [], Ok(()));
    if GuardPasses(req, env) {
      if req.kind == ToJson {
        ExportUnderDrop(req, output, env, start, n);
      } else {
        ImportUnderDrop(req, output, env, start, n);
      }
    }
  }

  /** A receiver dropped after `n` values sees exactly the first `n` values a listening receiver would. */
  lemma DisconnectTruncates<Obj>(req: Request, env: Env<Obj>, n: nat)
    ensures Worker(req, env, DropsAfter(n)).delivered == Take(Worker(req, env, Listening).delivered, n)
  {
    ConvertUnderDrop(req, env, n);
    var heard := ConvertFile(req, env, Listening);
    var cut := ConvertFile(req, env, DropsAfter(n));
    if n < |heard.delivered| {
      assert Worker(req, env, DropsAfter(n)).delivered == cut.delivered;
    }
  }

  /** If the receiver is gone when 100 is sent, an export reports failure although it has
      already written the output file. */
  lemma SendFailureAfterWrite<Obj>(req: Request, env: Env<Obj>)
    requires req.kind == ToJson && GuardPasses(req, env)
    requires StagesSucceed(req, env, Listening)
    ensures Write(OutputPath(req.input, ToJson), ExportedText(SerializedJson(req, env).value, req.localize))
            in ConvertFile(req, env, DropsAfter(1)).calls
    ensures ConvertFile(req, env, DropsAfter(1)).result == Err(Channel(100))
    ensures Worker(req, env, DropsAfter(1)).delivered == [33]
  {
  }

  /** Converting a plugin to JSON and the written JSON back: the import parses the very text the
      export serialized, and it writes the plugin under the input's name with extension `esp`.
      When localizing, this rests on the assumption recorded in the requires: the serialized text
      held no Russian letters, which `to_russian` followed by `from_russian` could not restore. */
  lemma ExportThenImport<Obj>(exportReq: Request, env1: Env<Obj>, importReq: Request, env2: Env<Obj>, text: string)
    requires exportReq.kind == ToJson && importReq.kind == ToPlugin
    requires importReq.localize == exportReq.localize
    requires importReq.input == OutputPath(exportReq.input, ToJson)
    requires Write(importReq.input, text) in ConvertFile(exportReq, env1, Listening).calls
    requires exportReq.localize ==> Localizer.NoRussian(SerializedJson(exportReq, env1).value)
    requires GuardPasses(importReq, env2) && env2.readFile(importReq.input) == Ok(text)
    ensures Parse(SerializedJson(exportReq, env1).value) in ConvertFile(importReq, env2, Listening).calls
    ensures OutputPath(importReq.input, ToPlugin) == OutputPath(exportReq.input, ToPlugin)
  {
    ExportWritesLocalizedText(exportReq, env1, Listening, importReq.input, text);
    var json := SerializedJson(exportReq, env1).value;
    if exportReq.localize {
      Localizer.ToThenFromRestores(json);
    }
    ImportParsesLocalizedText(importReq, env2, Listening, json);
    OutputPathOfOutput(exportReq.input);
  }

  /** The worked example: `C:\data\plugin.esm` becomes `C:\data\plugin.json` when converted to
      JSON and `C:\data\plugin.esp` when converted to a plugin. */
  lemma ExampleOutputPaths()
    ensures OutputPath("C:\\data\\plugin.esm", ToJson) == "C:\\data\\plugin.json"
    ensures OutputPath("C:\\data\\plugin.esm", ToPlugin) == "C:\\data\\plugin.esp"
  {
    assert Paths.IsPlainExtension("esm") && Paths.IsPlainExtension("json") && Paths.IsPlainExtension("esp");
    var dir, stem := "C:\\data\\", "plugin";
    assert dir + stem + "." + "esm" == "C:\\data\\plugin.esm";
    assert dir + stem + "." + "json" == "C:\\data\\plugin.json";
    assert dir + stem + "." + "esp" == "C:\\data\\plugin.esp";
    Paths.RenamesPlainFile(dir, stem, "esm", "json");
    Paths.RenamesPlainFile(dir, stem, "esm", "esp");
  }
}

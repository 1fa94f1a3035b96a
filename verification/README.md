# tes3conv conversion engine in Dafny

This project models the conversion engine of tes3conv_gui, a small Windows tool that
converts a Morrowind plugin (`.esp`/`.esm`) to JSON text and back. Everything it models is in
`src/main.rs`:

- **The 1C localizer.** `Localizer` (`Localizer` module) holds a table of 66 pairs. Each pair
  sends a Russian letter (А–я, Ё, ё) to the Latin-1 character at the same Windows-1251
  position (À–ÿ, ¨, ¸). These are the "1C characters". The localizer also holds the flipped
  table and two rewrites:
  - `to_russian` turns 1C characters into Russian letters;
  - `from_russian` turns Russian letters into 1C characters.

  The model proves the following:
  - the table is exactly the Windows-1251 correspondence;
  - the table is injective, so Ч/× and ч/÷ do not collide;
  - the flipped table is its exact inverse;
  - both rewrites act character by character and keep length;
  - each rewrite undoes the other, exactly on the texts where that is possible;
  - both rewrites are idempotent.
- **Output-path derivation** (`Paths` module). This is `PathBuf::with_extension` on Windows
  paths. `/` and `\` both separate components, and a drive prefix `C:` is allowed. The model
  proves three things:
  - the directory and the file stem are kept, and the new extension is set;
  - replacing the extension by one plain extension (non-empty, with no dot and no separator)
    and then by another is the same as replacing it by the second directly;
  - `C:\data\plugin.esm` becomes `C:\data\plugin.json` or `C:\data\plugin.esp`.
- **`convert_file` and the worker closure** (`Conversion` and `ConversionProperties` modules).
  The file system, the plugin codec and serde_json are oracles: function-typed fields of
  `Env`. The plugin's object set is a type parameter. The progress channel is a `Receiver`,
  which either keeps listening or is dropped after taking some number of values. A run is a
  pure value: the calls it made to the outside world, the progress values the receiver got,
  and the result. The model proves the following:
  - the overwrite guard fires before any load, read, write, parse, save or progress send;
  - a conversion succeeds exactly when every stage and every send succeeds;
  - an export writes the serialized JSON, passed through `to_russian` when localizing;
  - an import parses the file's contents, passed through `from_russian` when localizing, and
    saves exactly the parsed objects;
  - progress is `[33, 100]` or `[33, 66, 100]` on success;
  - on failure, progress is a strict prefix of that followed by one -1;
  - a dropped receiver sees a prefix of what a listening one sees;
  - exporting to JSON and importing the written file with the same localization flag parses
    the very text that was serialized, provided localization is off or the serialized text held
    no Russian letters; the import writes the plugin under the input's own name with extension
    `esp`.

Three facts about the code that the model follows:

- The export direction (to JSON) applies `to_russian`, and the import direction applies
  `from_russian`. So JSON containing `Привет` is written unchanged, and `Ïðèâåò` in the
  serialized JSON is written as `Привет`. Texts read for import have their Russian letters
  turned back into 1C characters before parsing.
- The literal table has 66 pairs, with no duplicates: the 33 upper-case and 33 lower-case
  letters, Ё and ё included.
- The two alphabets are disjoint. So each rewrite clears its own domain, and applying it twice
  changes nothing (`Localizer.RewritesIdempotent`).

## Model

| member | source | states |
|---|---|---|
| Localizer.TableEntry | src/main.rs:64-79 | no contract; the literal list of pairs, one case per pair in the source's order; characterised by `Localizer.EntryIsCp1251` |
| Localizer.RussianTo1C | src/main.rs:63-83 | no contract; the map `russian_to_1c` built by inserting every pair; characterised by `Localizer.TableIsCp1251` and `Localizer.TableInjective` |
| Localizer.EntryIsCp1251 | src/main.rs:64-79 | a character is listed in the literal table exactly when it is a Russian letter, and its partner is the character at its Windows-1251 position |
| Localizer.TableIsCp1251 | src/main.rs:63-83 | the map built from the list holds exactly the 66 Russian letters, each sent to its Windows-1251 position |
| Localizer.TableInjective | src/main.rs:64-79 | no two Russian letters share a 1C character, so the table is a bijection onto its values |
| Localizer.Invert | src/main.rs:85-88 | flipping an injective map gives a map whose keys are exactly the old values, each sent back to its old key |
| Localizer.C1ToRussian | src/main.rs:85-88 | `c1_to_russian` holds exactly the 66 1C characters, each sent to the Russian letter that Windows-1251 stores there |
| Localizer.InverseIsExact | src/main.rs:81-88 | `c1_to_russian` is the exact functional inverse of `russian_to_1c`, in both directions |
| Localizer.Rewrite | src/main.rs:96-106 | a rewrite keeps the length, replaces each character that has an entry by its entry, and keeps every other character |
| Localizer.ToRussian | src/main.rs:96-100 | `to_russian` keeps length, turns each 1C character into the Russian letter at its Windows-1251 position, and keeps every other character |
| Localizer.FromRussian | src/main.rs:102-106 | `from_russian` keeps length, turns each Russian letter into its Windows-1251 1C character, and keeps every other character |
| Localizer.RewritesClearTheirDomain | src/main.rs:96-106 | no Russian letter survives `from_russian` and no 1C character survives `to_russian` |
| Localizer.FromThenToRestores | src/main.rs:96-106 | `to_russian(from_russian(s)) == s` if and only if `s` holds no 1C character |
| Localizer.ToThenFromRestores | src/main.rs:96-106 | `from_russian(to_russian(t)) == t` if and only if `t` holds no Russian letter |
| Localizer.RewritesIdempotent | src/main.rs:96-106 | applying either rewrite twice gives the same text as applying it once |
| Localizer.GreetingRewrites | src/main.rs:96-106 | `Ïðèâåò` and `Привет` rewrite into each other |
| Paths.WithExtension | src/main.rs:573-576 | no contract; `PathBuf::with_extension`: a path without a file name unchanged, otherwise cut right after the file stem with a dot and the extension appended; characterised by `Paths.WithExtensionKeepsName`, `Paths.ReplaceTwice` and `Paths.RenamesPlainFile` |
| Paths.WithExtensionKeepsName | src/main.rs:573-576 | `with_extension` with a plain extension gives exactly the directory and the file stem followed by a dot and the new extension, whatever the old one was, so directory, stem and extension read back as expected; a path without a file name is unchanged |
| Paths.ReplaceTwice | src/main.rs:573-576 | giving a path one plain extension and then another is the same as giving it the second directly |
| Paths.RenamesPlainFile | src/main.rs:573-576 | `dir\stem.before` becomes `dir\stem.after`, with the directory text kept as it is |
| Conversion.ConversionType | src/main.rs:49-53 | no contract; the two directions, to JSON and to plugin |
| Conversion.Error | src/main.rs:35-47 | no contract; the five error kinds, of which a conversion produces Io, Json, FileExists and Channel |
| Conversion.OutputPath | src/main.rs:573-576 | no contract; `with_extension("json")` to JSON and `with_extension("esp")` to plugin; characterised by `Conversion.OutputPathKeepsName` and `Conversion.OutputPathOfOutput` |
| Conversion.OutputPathKeepsName | src/main.rs:572-576 | the output path is exactly the input's directory and file stem followed by `.json` (to JSON) or `.esp` (to plugin), whatever the input's extension; a path without a file name is kept |
| Conversion.SendProgress | src/main.rs:586 | no contract; `progress_tx.send(v)?` (also at lines 601, 605, 615 and 618): the value is delivered while the receiver listens, otherwise the run fails with a Channel error carrying the value; characterised through `Conversion.Export`, `Conversion.Import` and `ConversionProperties.ExportUnderDrop` |
| Conversion.OutputPathOfOutput | src/main.rs:573-576 | the plugin path derived from the JSON output path equals the plugin path derived from the input |
| Conversion.Export | src/main.rs:583-602 | the JSON branch only adds calls; on success the receiver got exactly 33, 100; on failure a strict prefix of that, and the error is never FileExists |
| Conversion.Import | src/main.rs:603-619 | the plugin branch only adds calls; on success the receiver got exactly 33, 66, 100; on failure a strict prefix of that, and the error is never FileExists |
| Conversion.ConvertFile | src/main.rs:563-623 | the first call probes the output path; success delivers exactly the success sequence, failure a strict prefix; the result is FileExists(output) if and only if the output exists and overwriting is off |
| Conversion.Worker | src/main.rs:456-471 | what the receiver gets is a prefix of the success sequence or a failure trace; with a listening receiver, success gives the full sequence and failure gives a strict prefix followed by one -1 |
| ConversionProperties.SucceedsIffStagesSucceed | src/main.rs:578-622 | a conversion returns Ok if and only if the guard passes, the receiver takes every progress value, and every stage of the direction succeeds |
| ConversionProperties.GuardStopsBeforeWork | src/main.rs:578-580 | with an existing output and overwriting off, the only call is the existence probe, the result is FileExists(output), and the worker's -1 is the only progress sent |
| ConversionProperties.ExportBranchWrites | src/main.rs:583-601 | the JSON branch writes a given text to a given path if and only if the load, the send of 33 and the serialization succeeded, the path is the output and the text is the localized JSON |
| ConversionProperties.ExportWritesLocalizedText | src/main.rs:594-600 | an export writes exactly the serialized JSON, passed through `to_russian` when localizing, to the output path, and nothing when any earlier step fails |
| ConversionProperties.ImportBranchParses | src/main.rs:604-614 | the plugin branch parses a given text if and only if the read and the send of 33 succeeded and the text is the localized contents |
| ConversionProperties.ImportBranchSaves | src/main.rs:613-618 | the plugin branch saves given objects to a given path if and only if the read, both sends and the parse succeeded, the objects are the parsed ones and the path is the output |
| ConversionProperties.ImportParsesLocalizedText | src/main.rs:604-614 | an import parses exactly the file's contents, passed through `from_russian` when localizing, and only after the guard, the read and the send of 33 |
| ConversionProperties.ImportSavesParsedObjects | src/main.rs:613-618 | an import saves exactly the parsed object set to the output path, and only after the send of 66 |
| ConversionProperties.MalformedJsonReportsAfterRead | src/main.rs:604-615 | JSON that fails to parse gives a Json error, and the receiver gets 33 then -1 |
| ConversionProperties.ExportUnderDrop | src/main.rs:583-602 | under a receiver dropped after n values, the JSON branch runs as under a listening one if n covers its sends; otherwise it fails having delivered exactly the first n values |
| ConversionProperties.ImportUnderDrop | src/main.rs:603-619 | the same for the plugin branch |
| ConversionProperties.ConvertUnderDrop | src/main.rs:563-623 | the same for a whole conversion |
| ConversionProperties.DisconnectTruncates | src/main.rs:456-471 | the worker under a receiver dropped after n values delivers exactly the first n values a listening receiver would get |
| ConversionProperties.SendFailureAfterWrite | src/main.rs:600-601 | if the receiver is gone when 100 is sent, the export has already written its file, yet the result is a Channel error and only 33 was delivered |
| ConversionProperties.ExportThenImport | src/main.rs:583-619 | importing the JSON an export wrote parses the very text that was serialized, provided it had no Russian letters; the import's output path is the plugin path of the original input |
| ConversionProperties.ExampleOutputPaths | src/main.rs:572-576 | the output path of the literal `C:\data\plugin.esm` is `C:\data\plugin.json` to JSON and `C:\data\plugin.esp` to plugin |

## Left out

- The Win32 user interface is not modelled: windows, controls, the message loop, file dialogs, `update_progress`, the `is_converting` flag, and the `LOWORD`/`HIWORD` helpers.
- Threads are not modelled. `std::thread::spawn` and the `mpsc` channel become one sequential run with a `Receiver` that either listens or is dropped after n values.
- The plugin codec (`Plugin::load_path`, `Plugin::save_path`) and serde_json (`to_string`, `to_string_pretty`, `from_str`) are oracles in `Env`. Their formats are not part of this model. Compact versus pretty output is the flag passed to the serializer oracle.
- The file system is not modelled. `Path::exists`, `fs::write` and `fs::read_to_string` are oracles, and error values are their messages.
- Progress values are integers. The `f32` values 33.0, 66.0, 100.0 and -1.0 are exact, so nothing is lost.
- Logging (`log::error!`) is not modelled.
- The `Windows` error variant is declared, but a conversion never produces it. It comes only from the user interface.
- Localizer.Invert: requires the map to be injective. On a non-injective map the result of the flip loop depends on `HashMap` iteration order, which is not modelled. The table is proved injective, so `c1_to_russian` is fully determined.
- Paths.PrefixLength: only drive prefixes such as `C:` are recognised. UNC (`\\server\share`) and verbatim (`\\?\`) prefixes are not modelled.
- Paths.WithExtensionKeepsName: states its directory/stem/extension property only for plain extensions (non-empty, with no dot and no separator). These are the only extensions `convert_file` uses. For an empty extension, or one with a dot, `WithExtension` still computes the cut-and-append result.

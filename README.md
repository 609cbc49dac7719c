# Clarity generator core, modelled in Dafny

This project models the template-instantiation engine of the Myrtus Clarity
project generator. The generator starts from a clone of the template
repository, which is its working copy. It then:

1. renames the template token, `TemplateName`, to the new project name. This
   covers folder names, file names and file contents, and it leaves alone
   every path the skip policy protects and every `OLD.Core` reference;
2. removes the `cms` module when the user did not ask for it;
3. adds the requested modules as git submodules and strips their nested
   `core` submodule;
4. renames inside `modules/` in the same way;
5. moves the working copy to `<output>/<project>`, replacing whatever was
   there.

Before that, the command line is split into positional values and module
names, and the run is settled as interactive or not.

The Dafny modules follow the program's structure:

| file | module | what it holds |
|---|---|---|
| `text.dfy` | `Common` | `Option`/`Result`. Ordinal and ASCII case-insensitive string tests. The line splitting of `File.ReadAllLines` and the joining of `File.WriteAllLines`. |
| `scanner.dfy` | `Scanner` | The left-to-right scan of `Regex.Replace`: at each index, the leftmost match is replaced and the scan resumes after it. Specified as a splice of a set of non-overlapping matches. |
| `rewriter.dfy` | `Rewriter` | The four patterns the source uses, as matchers: `\bOLD\b(?!\.Core)`, `using\s+OLD\.(?!Core)`, the lazy `<ProjectReference\s+Include="(.*?)OLD(?!\.Core)(.*?)"` and case-insensitive literals. Backtracking is written out as search functions, with lemmas that they find the match the regex engine finds. |
| `content_rules.dfy` | `ContentRules` | `ReplaceContentExcludingCore`, `UpdateUsingStatements`, `UpdateProjectReferences`, the `docker-compose.yml` and `appsettings.json` rules, and the whole content rewrite of one file. |
| `content_examples.dfy` | `ContentExamples` | Families of inputs whose rewrite is computed exactly, such as the first `OLD` renamed while `OLD.Core` is kept. |
| `skip_policy.dfy` | `SkipPolicy` | `ShouldSkipPath` and what it implies for whole subtrees. |
| `file_system.dfy` | `FileSystem` | The disk as a map from path to folder or file. The `System.IO` calls the core makes, with their failure cases. A `Disk` class whose methods change the map. |
| `tree_renamer.dfy` | `TreeRenamer` | `RenameProjectAsync`, `RenameModulesAsync` and `RenameFileContentsAsync`. |
| `modules.dfy` | `Modules` | The module table, the `cms` cleanup, `AddModuleAsync` and the loop over requested modules. |
| `generator.dfy` | `Generator` | `FinalizeProjectAsync`. |
| `cli.dfy` | `Cli` | The argument loop and the interactive decisions of `Program.Main`. |

Every operation that changes the disk has two parts:

- A function on the map describes it, and returns a `Run`: the map it leaves, plus the exception that stopped it, if any.
- A method on `Disk` performs it statement by statement, and its `ensures` ties the new map to that function.

The properties are proved about the functions.

## Behaviour of the code worth knowing

- The `.Core` exclusion is the literal lookahead `(?!\.Core)` after `OLD` (src/Myrtus.Clarity.Generator.Common/ProjectGenerator.cs:288). `OLD.Sub.Core` is renamed. The `OLD` in `OLD.Coreless` is kept, because the lookahead tests a prefix; `ContentExamples.CorelessIsKept` shows this.
- `ShouldSkipPath` (src/Myrtus.Clarity.Generator.Common/ProjectGenerator.cs:226-234) tests ordinal substrings and suffixes of the whole path. `src/combine` is skipped, because it holds `bin`, and `src/Tests` is not. The `SkipPaths` list (src/Myrtus.Clarity.Generator.Common/Models/AppSettings.cs:7) is never read.
- The `docker-compose.yml` rule (src/Myrtus.Clarity.Generator.Common/ProjectGenerator.cs:252-257) replaces `Myrtus` in any case, everywhere in the file, and then the Dockerfile path.
- The tree rename moves a folder only when no folder stands at its new path (src/Myrtus.Clarity.Generator.Common/ProjectGenerator.cs:160). When a file stands there, the move is attempted and fails.
- A failing `git submodule add` is not fatal (src/Myrtus.Clarity.Generator.Common/ProjectGenerator.cs:108-112). AddModuleAsync reports the error and returns, and the loop goes on with the next requested module (`Modules.GitFailureAddsNothing`, `Modules.AddRequestedModules`).
- Only a path ending in `.Core`, or passing through a folder named exactly `.Core`, is skipped (src/Myrtus.Clarity.Generator.Common/ProjectGenerator.cs:232-233). A file inside a folder such as `Foo.Core/` is rewritten and renamed like any other file (src/Myrtus.Clarity.Generator.Common/ProjectGenerator.cs:271-281). `SkipPolicy.CoreSuffixFolderContentsKept` and `TreeRenamer.CoreSuffixFolderFileRenamed` show this: `Baz/Foo.Core/B.txt` moves to `Baz/Baz.Core/B.txt`.
- Module paths are built with `Path.Combine` (src/Myrtus.Clarity.Generator.Common/ProjectGenerator.cs:65, 95 and 130). A plain name lands in `modules/<name>`. An empty name gives the `modules` folder itself. A rooted name such as `/x` stands alone, outside the working copy. `Modules.PlainModuleInsideModules`, `Modules.EmptyModuleNameIsModules` and `Modules.RootedModuleNameEscapes` state these cases.

## Model

| member | source | states |
|---|---|---|
| Common.ContainsIgnoreCaseInfix | src/Myrtus.Clarity.Generator.Common/ProjectGenerator.cs:255-256 | A text holding `a + b + c` (OrdinalIgnoreCase) holds `b`. So the Dockerfile pattern can only match where the brand occurs. |
| Common.LinesHaveNoBreaks | src/Myrtus.Clarity.Generator.Common/ProjectGenerator.cs:52 | No line returned by ReadAllLines holds `\r` or `\n`. |
| Common.LinesOfUnlines | src/Myrtus.Clarity.Generator.Common/ProjectGenerator.cs:52-55 | Writing lines without breaks and reading them back gives the same lines. |
| Common.UnlinesOfLines | src/Myrtus.Clarity.Generator.Common/ProjectGenerator.cs:52-55 | Reading a `\n`-only text that ends in `\n`, then writing the lines back, gives the text unchanged. |
| Common.LinesAtFeed | src/Myrtus.Clarity.Generator.Common/ProjectGenerator.cs:52 | A text cut at its first break, a `\n`, is that first line followed by the lines of the rest. |
| Scanner.ScanReplacesLeftmostMatches | src/Myrtus.Clarity.Generator.Common/ProjectGenerator.cs:285-303 | The leftmost-first scan picks a set of non-overlapping matches that covers every match start. For every such set, the output is the input with those spans replaced. |
| Scanner.ScanWithoutMatch | src/Myrtus.Clarity.Generator.Common/ProjectGenerator.cs:285-303 | With no match anywhere, Regex.Replace returns the input. |
| Scanner.ScanCopies | src/Myrtus.Clarity.Generator.Common/ProjectGenerator.cs:285-303 | A stretch where no match starts is copied to the output as it is. |
| Scanner.ScanSingleMatch | src/Myrtus.Clarity.Generator.Common/ProjectGenerator.cs:285-303 | With a single match, the output is the prefix, then the replacement, then the suffix. |
| Scanner.MatchesFromIsMatchSet | src/Myrtus.Clarity.Generator.Common/ProjectGenerator.cs:285-303 | The matches the scan takes are ordered and non-overlapping, and they cover every later match start. |
| Rewriter.SpaceRun | src/Myrtus.Clarity.Generator.Common/ProjectGenerator.cs:294 | The greedy `\s+` run: every character in it is whitespace, and the one after it is not. |
| Rewriter.SpaceRunIsMaximal | src/Myrtus.Clarity.Generator.Common/ProjectGenerator.cs:294 | Every run of whitespace at j is no longer than the greedy run. |
| Rewriter.UsingFitIsWidest | src/Myrtus.Clarity.Generator.Common/ProjectGenerator.cs:294 | Backtracking in `\s+` chooses the widest whitespace prefix after which `OLD.` not followed by `Core` fits. |
| Rewriter.UsingFitFailsOnlyWithoutFit | src/Myrtus.Clarity.Generator.Common/ProjectGenerator.cs:294 | The `using` pattern fails only when no width of whitespace lets `OLD.` (not `OLD.Core`) follow. |
| Rewriter.QuoteIsFirst | src/Myrtus.Clarity.Generator.Common/ProjectGenerator.cs:301 | The lazy `(.*?)"` stops at the first quote, and never crosses a line feed. It fails only when no quote precedes the next line feed. |
| Rewriter.RefSplitIsFirst | src/Myrtus.Clarity.Generator.Common/ProjectGenerator.cs:301 | The lazy first group ends at the first position where `OLD`, not followed by `.Core`, is followed by a closing quote on the same line. |
| Rewriter.RefSplitFailsOnlyWithoutTail | src/Myrtus.Clarity.Generator.Common/ProjectGenerator.cs:301 | The reference pattern fails only when no such position exists before the next line feed. |
| Rewriter.RefSplitQuote | src/Myrtus.Clarity.Generator.Common/ProjectGenerator.cs:301 | The second group ends at the first quote after the chosen `OLD`. |
| Rewriter.UsingHitShape | src/Myrtus.Clarity.Generator.Common/ProjectGenerator.cs:294 | A `using` match is `using`, at least one whitespace character, then `OLD.` not followed by `Core`. It is replaced by `using NEW.`. |
| Rewriter.RefHitShape | src/Myrtus.Clarity.Generator.Common/ProjectGenerator.cs:299-302 | A reference match is `<ProjectReference`, whitespace, `Include="`, group 1, a live `OLD`, group 2 and `"`. It is replaced by the same text with a single space and `NEW` in place of `OLD`. |
| Rewriter.UsingHitWhenFits | src/Myrtus.Clarity.Generator.Common/ProjectGenerator.cs:294 | Whenever the `using` layout is present at a position, the pattern matches there. |
| Rewriter.RefHitWhenTail | src/Myrtus.Clarity.Generator.Common/ProjectGenerator.cs:301 | Whenever the reference layout is present at a position, the pattern matches there. |
| Rewriter.TokenHitIsLive | src/Myrtus.Clarity.Generator.Common/ProjectGenerator.cs:285-301 | Each of the three token patterns matches only if the text holds `OLD` not followed by `.Core`. |
| Rewriter.RewriteWithoutLiveToken | src/Myrtus.Clarity.Generator.Common/ProjectGenerator.cs:285-303 | A text whose every `OLD` is followed by `.Core` is left unchanged by all three token rewrites. |
| Rewriter.LiteralHitIsOccurrence | src/Myrtus.Clarity.Generator.Common/ProjectGenerator.cs:255-266 | A literal pattern matches at i if and only if it occurs at i, ordinally or with both sides lower-cased. The match covers the pattern and is replaced by the replacement text. |
| Rewriter.LiteralMatchesAreOccurrences | src/Myrtus.Clarity.Generator.Common/ProjectGenerator.cs:255-266 | The same for every position: the matches of a literal rule are exactly the occurrences of its pattern, each replaced by the replacement text. |
| Rewriter.RewriteWithoutOccurrence | src/Myrtus.Clarity.Generator.Common/ProjectGenerator.cs:255-266 | A literal replacement of a pattern the text does not contain changes nothing. |
| Rewriter.RewriteIsSplice | src/Myrtus.Clarity.Generator.Common/ProjectGenerator.cs:285-303 | Every rewrite replaces the leftmost non-overlapping matches of its pattern and copies everything else. |
| Rewriter.WordMatchesAreLiveWords | src/Myrtus.Clarity.Generator.Common/ProjectGenerator.cs:288 | `\bOLD\b(?!\.Core)` matches at p if and only if `OLD` stands at p with `\b` on both sides and no `.Core` after it. Each match covers `OLD` and is replaced by `NEW`. |
| ContentRules.ReplaceContentExcludingCore | src/Myrtus.Clarity.Generator.Common/ProjectGenerator.cs:285-289 | A text with no `OLD` outside `OLD.Core` is returned unchanged. What it replaces otherwise is stated by `ReplaceContentExcludingCoreReplacesWords`. |
| ContentRules.UpdateUsingStatements | src/Myrtus.Clarity.Generator.Common/ProjectGenerator.cs:291-295 | A text with no `OLD` outside `OLD.Core` is returned unchanged. What it replaces otherwise is stated by `UpdateUsingStatementsReplacesUsings`. |
| ContentRules.UpdateProjectReferences | src/Myrtus.Clarity.Generator.Common/ProjectGenerator.cs:297-303 | A text with no `OLD` outside `OLD.Core` is returned unchanged. What it replaces otherwise is stated by `UpdateProjectReferencesReplacesReferences`. |
| ContentRules.ReplaceIgnoreCase | src/Myrtus.Clarity.Generator.Common/ProjectGenerator.cs:255 | A text without the pattern, in any case, is returned unchanged. What it replaces otherwise is stated by `ReplaceIgnoreCaseReplacesOccurrences`. |
| ContentRules.ComposeRules | src/Myrtus.Clarity.Generator.Common/ProjectGenerator.cs:252-257 | A compose file that does not mention the brand, in any case, is returned unchanged. Each of its two steps is a ReplaceIgnoreCase, whose matches `ReplaceIgnoreCaseReplacesOccurrences` states. |
| ContentRules.AppSettingsRules | src/Myrtus.Clarity.Generator.Common/ProjectGenerator.cs:260-267 | A settings file that does not mention the brand, in any case, is returned unchanged. Each endpoint step is a ReplaceIgnoreCase, whose matches `ReplaceIgnoreCaseReplacesOccurrences` states. |
| ContentRules.ReplaceContentExcludingCoreReplacesWords | src/Myrtus.Clarity.Generator.Common/ProjectGenerator.cs:285-289 | The whole-word rewrite replaces the leftmost non-overlapping matches and copies the rest. The matches are exactly the whole-word `OLD`s not followed by `.Core`, each replaced by `NEW`. |
| ContentRules.UpdateUsingStatementsReplacesUsings | src/Myrtus.Clarity.Generator.Common/ProjectGenerator.cs:291-295 | The `using` rewrite replaces the leftmost non-overlapping matches and copies the rest. Each match becomes `using NEW.` and ends in a live `OLD` followed by a dot. |
| ContentRules.UpdateProjectReferencesReplacesReferences | src/Myrtus.Clarity.Generator.Common/ProjectGenerator.cs:297-303 | The ProjectReference rewrite replaces the leftmost non-overlapping matches and copies the rest. Each replacement starts with `<ProjectReference Include="` and ends with the closing quote. |
| ContentRules.ReplaceIgnoreCaseReplacesOccurrences | src/Myrtus.Clarity.Generator.Common/ProjectGenerator.cs:252-266 | A case-insensitive replacement replaces the leftmost non-overlapping matches and copies the rest. The matches are exactly the occurrences of the pattern, in any case, each replaced by the replacement text. |
| ContentRules.AppSettingsUnfolds | src/Myrtus.Clarity.Generator.Common/ProjectGenerator.cs:263-266 | The settings rules are the `-db`, `-redis`, `-mongodb` and `-seq` replacements, in that order. |
| ContentRules.FileName | src/Myrtus.Clarity.Generator.Common/ProjectGenerator.cs:252 | Path.GetFileName: the path ends in the name, the name holds no separator, and a separator stands just before it. |
| ContentRules.RewrittenContent | src/Myrtus.Clarity.Generator.Common/ProjectGenerator.cs:238-267 | A file whose text holds no live `OLD` and no brand is written back as it was read: the text written is the text read. |
| ContentExamples.FirstRenamedCoreKept | src/Myrtus.Clarity.Generator.Common/ProjectGenerator.cs:285-289 | In `OLD mid OLD.Core rest`, the first `OLD` becomes `NEW` and `OLD.Core` is kept. |
| ContentExamples.ReplaceContentExcludingCoreExample | src/Myrtus.Clarity.Generator.Common/ProjectGenerator.cs:285-289 | A concrete text in which one `Myrtus` is renamed and `Myrtus.Core` is kept. |
| ContentExamples.CorePrefixKept | src/Myrtus.Clarity.Generator.Common/ProjectGenerator.cs:288 | `OLD.Core…` is kept even when `.Core` only begins a longer word. |
| ContentExamples.CorelessIsKept | src/Myrtus.Clarity.Generator.Common/ProjectGenerator.cs:288 | `Myrtus.Coreless` is not renamed: the lookahead is a prefix test. |
| ContentExamples.WordRenamedOnce | src/Myrtus.Clarity.Generator.Common/ProjectGenerator.cs:288 | A leading whole-word `OLD` with no later match becomes `NEW`, and the rest is copied. |
| ContentExamples.UsingRenamed | src/Myrtus.Clarity.Generator.Common/ProjectGenerator.cs:291-295 | `using OLD.rest` becomes `using NEW.rest` when `rest` does not start with `Core`. |
| ContentExamples.UpdateUsingStatementsExample | src/Myrtus.Clarity.Generator.Common/ProjectGenerator.cs:291-295 | A concrete `using Myrtus.Clarity…;` line is renamed. |
| ContentExamples.UsingWithoutLiveDotKept | src/Myrtus.Clarity.Generator.Common/ProjectGenerator.cs:294 | `using OLD` not followed by a dot, or followed by `.Core`, is kept. |
| ContentExamples.UsingExamplesKept | src/Myrtus.Clarity.Generator.Common/ProjectGenerator.cs:294 | `using Myrtus;` and `using Myrtus.Core.Abstractions;` are kept. |
| ContentExamples.RefSplitOnLayout | src/Myrtus.Clarity.Generator.Common/ProjectGenerator.cs:301 | On a one-line reference, the lazy groups split at the first live `OLD` and at the closing quote. |
| ContentExamples.RefHitOnLayout | src/Myrtus.Clarity.Generator.Common/ProjectGenerator.cs:299-302 | The match covers the whole attribute, and the replacement keeps both groups around `NEW`. |
| ContentExamples.ReferenceRenamed | src/Myrtus.Clarity.Generator.Common/ProjectGenerator.cs:297-303 | A `<ProjectReference Include="g1OLDg2"` element becomes `<ProjectReference Include="g1NEWg2"`, with the rest kept. |
| ContentExamples.UpdateProjectReferencesExample | src/Myrtus.Clarity.Generator.Common/ProjectGenerator.cs:297-303 | A concrete project reference is renamed. |
| SkipPolicy.SkipIffMarker | src/Myrtus.Clarity.Generator.Common/ProjectGenerator.cs:226-234 | A path is skipped if and only if it contains one of the markers `.git`, `tests`, `bin`, `obj` or `/.Core/`, or ends in `.Core`. This marker form is what `MarkedPathSkipsBelow` and `CoreFolderSkipsBelow` extend to whole subtrees. |
| SkipPolicy.MarkedPathSkipsBelow | src/Myrtus.Clarity.Generator.Common/ProjectGenerator.cs:226-234 | Everything below a path that contains a marker is skipped too. |
| SkipPolicy.CoreFolderSkipsBelow | src/Myrtus.Clarity.Generator.Common/ProjectGenerator.cs:233 | Everything inside a `.Core` folder is skipped. |
| SkipPolicy.SubstringInsideWordSkips | src/Myrtus.Clarity.Generator.Common/ProjectGenerator.cs:228-231 | Markers are plain substrings: `src/combine` is skipped because it contains `bin`. |
| SkipPolicy.CapitalisedTestsKept | src/Myrtus.Clarity.Generator.Common/ProjectGenerator.cs:229 | The test is ordinal: `src/Tests` is not skipped and `src/tests` is. |
| SkipPolicy.CoreSuffixFolderContentsKept | src/Myrtus.Clarity.Generator.Common/ProjectGenerator.cs:232-233 | A folder ending in `.Core` is skipped, but the files inside it are not. |
| FileSystem.ParentOf | src/Myrtus.Clarity.Generator.Common/ProjectGenerator.cs:275 | Path.GetDirectoryName: the parent is a proper prefix that ends at the last separator. |
| FileSystem.DirectoryMove | src/Myrtus.Clarity.Generator.Common/ProjectGenerator.cs:162 | Directory.Move succeeds only from an existing source to an absent target outside the source. It leaves everything outside the source in place. |
| FileSystem.FileMove | src/Myrtus.Clarity.Generator.Common/ProjectGenerator.cs:279 | File.Move succeeds only for an existing file and an absent target. The file's contents move, and nothing else changes. |
| FileSystem.FileDelete | src/Myrtus.Clarity.Generator.Common/ProjectGenerator.cs:173 | File.Delete removes the path and keeps every other entry. |
| FileSystem.CreateDirectory | src/Myrtus.Clarity.Generator.Common/ProjectGenerator.cs:276 | After Directory.CreateDirectory the folder exists. Every old entry stays, and every new entry is a folder on the way to it. |
| FileSystem.ReadAllText | src/Myrtus.Clarity.Generator.Common/ProjectGenerator.cs:238 | Reading succeeds only on a file, and yields its contents. |
| FileSystem.WriteAllText | src/Myrtus.Clarity.Generator.Common/ProjectGenerator.cs:269 | A successful write replaces exactly that entry by a file with the new text. |
| FileSystem.DeleteTree | src/Myrtus.Clarity.Generator.Common/ProjectGenerator.cs:311 | Directory.Delete(path, true) succeeds only on a folder. It removes exactly the folder's subtree. |
| FileSystem.RelocateRoundTrip | src/Myrtus.Clarity.Generator.Common/ProjectGenerator.cs:162 | A path moved from src to dst lands under dst, and can be traced back to where it came from. |
| FileSystem.MoveCarries | src/Myrtus.Clarity.Generator.Common/ProjectGenerator.cs:162 | A folder move carries every entry of the subtree to its relocated path, with the same contents. |
| FileSystem.MoveLeavesNothingBehind | src/Myrtus.Clarity.Generator.Common/ProjectGenerator.cs:162 | After a folder move, nothing remains under the old path. |
| FileSystem.DeleteTreeKeepsWellFormed | src/Myrtus.Clarity.Generator.Common/ProjectGenerator.cs:311 | A recursive delete leaves every remaining entry's folders in place. |
| FileSystem.Disk.ReadText | src/Myrtus.Clarity.Generator.Common/ProjectGenerator.cs:238 | Returns what ReadAllText returns on the current disk. |
| FileSystem.Disk.MoveDirectory | src/Myrtus.Clarity.Generator.Common/ProjectGenerator.cs:162 | The disk becomes DirectoryMove of the old disk, or stays as it was with the exception. |
| FileSystem.Disk.MoveFile | src/Myrtus.Clarity.Generator.Common/ProjectGenerator.cs:279 | The disk becomes FileMove of the old disk, or stays as it was with the exception. |
| FileSystem.Disk.DeleteFile | src/Myrtus.Clarity.Generator.Common/ProjectGenerator.cs:173 | The disk becomes FileDelete of the old disk, or stays as it was with the exception. |
| FileSystem.Disk.CreateFolder | src/Myrtus.Clarity.Generator.Common/ProjectGenerator.cs:276 | The disk becomes CreateDirectory of the old disk, or stays as it was with the exception. |
| FileSystem.Disk.DeleteFolder | src/Myrtus.Clarity.Generator.Common/ProjectGenerator.cs:311 | The disk becomes DeleteTree of the old disk, or stays as it was with the exception. |
| FileSystem.Disk.WriteText | src/Myrtus.Clarity.Generator.Common/ProjectGenerator.cs:269 | The disk becomes WriteAllText of the old disk, or stays as it was with the exception. |
| FileSystem.Disk.GetDirectories | src/Myrtus.Clarity.Generator.Common/ProjectGenerator.cs:152 | Lists every folder below the root exactly once, in some order. |
| FileSystem.Disk.GetFiles | src/Myrtus.Clarity.Generator.Common/ProjectGenerator.cs:166 | Lists every file below the root exactly once, in some order. |
| TreeRenamer.RenamedPath | src/Myrtus.Clarity.Generator.Common/ProjectGenerator.cs:159 | A path without the token is returned as it is by string.Replace. What it replaces otherwise is stated by `RenamedPathReplacesOccurrences`. |
| TreeRenamer.RenamedPathReplacesOccurrences | src/Myrtus.Clarity.Generator.Common/ProjectGenerator.cs:159 | string.Replace on a path replaces the leftmost non-overlapping ordinal occurrences of `OLD`, each by `NEW`, and copies the rest. |
| TreeRenamer.CoreSuffixFolderFileRenamed | src/Myrtus.Clarity.Generator.Common/ProjectGenerator.cs:271 | `Baz/Foo.Core/B.txt` passes ShouldSkipPath (lines 226-234), and its new path is `Baz/Baz.Core/B.txt`: a file inside a `.Core`-suffixed folder is moved. |
| TreeRenamer.SortByLengthOrders | src/Myrtus.Clarity.Generator.Common/ProjectGenerator.cs:152-154 | OrderBy(length) returns the same folders, as a permutation, shortest first. |
| TreeRenamer.DirStep | src/Myrtus.Clarity.Generator.Common/ProjectGenerator.cs:156-164 | One folder turn changes the disk only for a folder that is not skipped, whose name changes and whose target is absent. Nothing outside the folder's subtree changes. |
| TreeRenamer.CarriedFolderStays | src/Myrtus.Clarity.Generator.Common/ProjectGenerator.cs:156-164 | A subfolder already carried to its renamed place by its parent's move is then left alone. |
| TreeRenamer.NestedTokenFolderFails | src/Myrtus.Clarity.Generator.Common/ProjectGenerator.cs:156-164 | Suppose the parent's move put a subfolder elsewhere than its own renamed path. The subfolder's later Directory.Move then throws, because its listed path is gone. |
| TreeRenamer.DirPassAllSkipped | src/Myrtus.Clarity.Generator.Common/ProjectGenerator.cs:156-164 | A folder loop over skipped paths changes nothing. |
| TreeRenamer.FilePassAllSkipped | src/Myrtus.Clarity.Generator.Common/ProjectGenerator.cs:167-175 | A file loop over skipped paths changes nothing. |
| TreeRenamer.FileStep | src/Myrtus.Clarity.Generator.Common/ProjectGenerator.cs:167-175 | A skipped file is left as it is. |
| TreeRenamer.WriteAndMoveContent | src/Myrtus.Clarity.Generator.Common/ProjectGenerator.cs:269-281 | After the write and the rename, the new text stands at the renamed path, or at the old path if a file was already at the new one. A moved file's old path is gone. |
| TreeRenamer.WriteAndMoveKeepsOthers | src/Myrtus.Clarity.Generator.Common/ProjectGenerator.cs:269-281 | The write and rename change no other existing entry. An existing file at the new path is never overwritten. |
| TreeRenamer.FileRewriteContent | src/Myrtus.Clarity.Generator.Common/ProjectGenerator.cs:236-282 | A successful RenameFileContentsAsync leaves RewrittenContent of the old text at the file's destination. |
| TreeRenamer.FileRewriteKeepsOthers | src/Myrtus.Clarity.Generator.Common/ProjectGenerator.cs:236-282 | RenameFileContentsAsync changes no existing entry other than the file itself. |
| TreeRenamer.RenamedDotSettingsSurvives | src/Myrtus.Clarity.Generator.Common/ProjectGenerator.cs:167-175 | A `.sln.DotSettings` file whose path holds the token is moved first. The delete then targets its old path, so the renamed copy stays. |
| TreeRenamer.DotSettingsInPlaceDeleted | src/Myrtus.Clarity.Generator.Common/ProjectGenerator.cs:167-175 | A `.sln.DotSettings` file that keeps its path is deleted, and nothing else that existed changes. |
| TreeRenamer.MarkedRootRenamesNothing | src/Myrtus.Clarity.Generator.Common/ProjectGenerator.cs:147-176 | A tree whose root path contains a skip marker is left entirely unchanged. |
| TreeRenamer.RewriteContent | src/Myrtus.Clarity.Generator.Common/ProjectGenerator.cs:238-267 | The chain of reassignments computes RewrittenContent. |
| TreeRenamer.RenameFileContents | src/Myrtus.Clarity.Generator.Common/ProjectGenerator.cs:236-282 | The disk and the exception are exactly those of FileRewrite on the old disk. |
| TreeRenamer.RenameTree | src/Myrtus.Clarity.Generator.Common/ProjectGenerator.cs:147-176 | The folder listing comes from the old disk and the file listing from the disk after the folder loop. The result is the two loops over them, stopping at the first exception. |
| TreeRenamer.RenameModules | src/Myrtus.Clarity.Generator.Common/ProjectGenerator.cs:178-213 | Without a `modules` folder nothing changes. Otherwise the folder listing is every folder below `modules`, once each. The file listing is every file below it once the folder pass has run, and the result is the two loops of TreeRename over those listings. |
| Modules.ModuleTableOkIffDistinct | src/Myrtus.Clarity.Generator.Common/ProjectGenerator.cs:24-26 | ToDictionary with OrdinalIgnoreCase succeeds if and only if no two module names are equal ignoring case. |
| Modules.ModuleTableKeys | src/Myrtus.Clarity.Generator.Common/ProjectGenerator.cs:24-26 | The table's keys are exactly the module names, folded. |
| Modules.ModuleTableValues | src/Myrtus.Clarity.Generator.Common/ProjectGenerator.cs:24-26 | Each module's name maps to that module's repository URL. |
| Modules.ModuleLookup | src/Myrtus.Clarity.Generator.Common/ProjectGenerator.cs:24-26 | ContainsKey holds if and only if some module's name equals the requested one ignoring case. The value is that module's URL. |
| Modules.RemoveLinesContaining | src/Myrtus.Clarity.Generator.Common/ProjectGenerator.cs:54 | RemoveAll leaves no line that contains the keyword, ignoring case. |
| Modules.RemoveLinesCounts | src/Myrtus.Clarity.Generator.Common/ProjectGenerator.cs:54 | Every line without the keyword is kept as often as it occurred, and every line with it is dropped. |
| Modules.RemoveLinesDistributes | src/Myrtus.Clarity.Generator.Common/ProjectGenerator.cs:54 | Filtering works line by line: it distributes over concatenation and so keeps the order. |
| Modules.RemoveLinesIdempotent | src/Myrtus.Clarity.Generator.Common/ProjectGenerator.cs:54 | Filtering twice is filtering once. |
| Modules.RemoveLinesUnchanged | src/Myrtus.Clarity.Generator.Common/ProjectGenerator.cs:54 | The lines come back unchanged if and only if none contains the keyword. |
| Modules.RemoveLinesShrinks | src/Myrtus.Clarity.Generator.Common/ProjectGenerator.cs:54 | Filtering never adds lines. |
| Modules.FilteredLinesFile | src/Myrtus.Clarity.Generator.Common/ProjectGenerator.cs:50-56 | Filtering a file's lines touches no other entry and removes no entry. |
| Modules.FilteredFileReadsBack | src/Myrtus.Clarity.Generator.Common/ProjectGenerator.cs:50-56 | Read back, the rewritten file's lines are the filtered old lines. |
| Modules.RemoveLinesFromFile | src/Myrtus.Clarity.Generator.Common/ProjectGenerator.cs:50-56 | The existence check, read, filter and write compute FilteredLinesFile. |
| Modules.CmsCleanup | src/Myrtus.Clarity.Generator.Common/ProjectGenerator.cs:38-57 | When `cms` is requested, in any case, nothing changes. |
| Modules.CmsCleanupClearsFolder | src/Myrtus.Clarity.Generator.Common/ProjectGenerator.cs:40-46 | When `cms` is not requested, a successful cleanup leaves no `modules/cms` folder and nothing below it. |
| Modules.CmsCleanupFiltersGitModules | src/Myrtus.Clarity.Generator.Common/ProjectGenerator.cs:48-56 | When `cms` is not requested, `.gitmodules` afterwards holds the old lines minus those that mention `modules/cms`. |
| Modules.RemoveUnrequestedCms | src/Myrtus.Clarity.Generator.Common/ProjectGenerator.cs:38-57 | The statements compute CmsCleanup. |
| FileSystem.PathCombine | src/Myrtus.Clarity.Generator.Common/ProjectGenerator.cs:308 | Path.Combine: a rooted name stands alone, and an empty part adds nothing. Otherwise one separator joins the parts unless the folder already ends in one. The result ends in the name. |
| Modules.PlainModuleInsideModules | src/Myrtus.Clarity.Generator.Common/ProjectGenerator.cs:65 | A name that is neither empty nor rooted gives the folder `modules/<name>` inside the working copy, with one separator between the parts. The relative path given to git is `modules/<name>`. |
| Modules.EmptyModuleNameIsModules | src/Myrtus.Clarity.Generator.Common/ProjectGenerator.cs:95-98 | An empty module name adds nothing to the path: the module folder is the `modules` folder itself. |
| Modules.RootedModuleNameEscapes | src/Myrtus.Clarity.Generator.Common/ProjectGenerator.cs:130 | A rooted module name stands alone in every Combine. The module folder is the name itself, and the nested core folder is the name followed by `core`. |
| Modules.GitModulesIsNotNestedCore | src/Myrtus.Clarity.Generator.Common/ProjectGenerator.cs:120-130 | `.gitmodules` is never the nested core folder that the add deletes, and that folder's path is not empty. |
| Modules.GitModulesOutsideCms | src/Myrtus.Clarity.Generator.Common/ProjectGenerator.cs:41-49 | `.gitmodules` lies outside the `modules/cms` folder that the cleanup deletes, so the file survives to be filtered. |
| Modules.GitFailureAddsNothing | src/Myrtus.Clarity.Generator.Common/ProjectGenerator.cs:106-112 | A failing `git submodule add` changes nothing and reports the module as not added. |
| Modules.AddedModuleHasNoNestedCore | src/Myrtus.Clarity.Generator.Common/ProjectGenerator.cs:129-134 | After a successful add, no `modules/<name>/core` folder remains, and nothing below it. |
| Modules.AddedModuleDropsNestedCoreEntry | src/Myrtus.Clarity.Generator.Common/ProjectGenerator.cs:118-127 | After a successful add, no line of `.gitmodules` names `path = modules/<name>/core`. |
| Modules.AddModule | src/Myrtus.Clarity.Generator.Common/ProjectGenerator.cs:90-135 | The statements of AddModuleAsync compute AddModuleSpec, with git as a parameter. |
| Modules.AddIfMissing | src/Myrtus.Clarity.Generator.Common/ProjectGenerator.cs:71-74 | A module whose folder already exists is not added again. |
| Modules.WarningsAreUnrecognised | src/Myrtus.Clarity.Generator.Common/ProjectGenerator.cs:62-75 | The warnings are exactly the requested names missing from the table, in request order. |
| Modules.UnknownModulesChangeNothing | src/Myrtus.Clarity.Generator.Common/ProjectGenerator.cs:62-75 | Requesting only unknown modules leaves the disk unchanged and warns about each one. |
| Modules.AddRequestedModules | src/Myrtus.Clarity.Generator.Common/ProjectGenerator.cs:60-76 | The loop computes AddModulesSpec: the disk, the exception and the warnings. |
| Generator.Cleared | src/Myrtus.Clarity.Generator.Common/ProjectGenerator.cs:309-312 | Clearing the output folder only removes entries. |
| Generator.FinalizeUnfolds | src/Myrtus.Clarity.Generator.Common/ProjectGenerator.cs:309-313 | The delete cannot fail once the folder exists. Finalizing is a move on the cleared disk. |
| Generator.ClearedFacts | src/Myrtus.Clarity.Generator.Common/ProjectGenerator.cs:309-312 | On the cleared disk nothing lies in the final folder's subtree, and the working copy is untouched. |
| Generator.FinalizeRelocatesTemplate | src/Myrtus.Clarity.Generator.Common/ProjectGenerator.cs:313 | Every entry of the working copy reappears under the final path with the same contents. Its old path is gone. |
| Generator.FinalizeReplacesOutput | src/Myrtus.Clarity.Generator.Common/ProjectGenerator.cs:305-313 | After finalizing, everything under the final path came from the working copy. Nothing of the previous output survives. |
| Generator.FinalizeKeepsTheRest | src/Myrtus.Clarity.Generator.Common/ProjectGenerator.cs:305-313 | Entries outside the working copy and the final folder are unchanged. |
| Generator.FinalizeProject | src/Myrtus.Clarity.Generator.Common/ProjectGenerator.cs:305-313 | The statements compute Finalize at `Path.Combine(outputDir, projectName)`. |
| Cli.RunEnd | src/Myrtus.Clarity.Generator.Presentation/Program.cs:28-32 | The inner loop stops at the first argument starting with `--`, or at the end. |
| Cli.SplitAccountsForEveryArgument | src/Myrtus.Clarity.Generator.Presentation/Program.cs:22-39 | Every argument is exactly one of: the flag, a module name or a positional value. |
| Cli.NoFlagAllPositional | src/Myrtus.Clarity.Generator.Presentation/Program.cs:22-39 | Without `--add-module`, every argument is positional, in order. |
| Cli.ModulesAreLowerAndNotFlags | src/Myrtus.Clarity.Generator.Presentation/Program.cs:28-31 | Every collected module name is lower-case and does not start with `--`. |
| Cli.PositionalsAreNotTheFlag | src/Myrtus.Clarity.Generator.Presentation/Program.cs:24-37 | No positional value is the flag, and each one is an argument. |
| Cli.SplitFromKeepsOrder | src/Myrtus.Clarity.Generator.Presentation/Program.cs:22-39 | Started on an argument that is read afresh, the loop yields exactly the positional arguments and the lower-cased module names, each in argument order. A module name is an argument not starting with `--` whose predecessor is the flag or a module name. |
| Cli.SplitArgsKeepsOrder | src/Myrtus.Clarity.Generator.Presentation/Program.cs:22-39 | The same for the whole command line. |
| Cli.RunIsModuleNames | src/Myrtus.Clarity.Generator.Presentation/Program.cs:27-33 | The arguments after the flag, up to the next `--` argument, are module names and none of them is positional. |
| Cli.OutputAfterModulesIsAModule | src/Myrtus.Clarity.Generator.Presentation/Program.cs:22-45 | In `App --add-module Cms ./out`, the output folder is swallowed as a module name. |
| Cli.RepeatedFlagAccumulates | src/Myrtus.Clarity.Generator.Presentation/Program.cs:22-34 | Repeated flags, in any case, add to one list. A flag directly after a flag adds nothing. |
| Cli.CollectModules | src/Myrtus.Clarity.Generator.Presentation/Program.cs:27-33 | The inner while loop appends the lowered run of non-flag arguments, and stops where that run ends. |
| Cli.SplitArguments | src/Myrtus.Clarity.Generator.Presentation/Program.cs:22-39 | The for loop, with its `i--` adjustment, computes SplitArgs. |
| Cli.NonInteractiveNeedsBoth | src/Myrtus.Clarity.Generator.Presentation/Program.cs:48-74 | A non-interactive run succeeds if and only if both positional values are present and not blank. The name is checked first. |
| Cli.InteractiveAlwaysResolves | src/Myrtus.Clarity.Generator.Presentation/Program.cs:50-77 | An interactive run always resolves. Missing values are asked for, and the output falls back to the base directory. Modules are prompted for only when none was given. |
| Cli.NonInteractiveFlagIsPositional | src/Myrtus.Clarity.Generator.Presentation/Program.cs:22-48 | `--non-interactive` is taken as a positional value, here the project name. |
| Cli.UpperCaseNonInteractiveIgnored | src/Myrtus.Clarity.Generator.Presentation/Program.cs:48 | Only the exact spelling `--non-interactive` switches interactive mode off. |
| Cli.ResolveRequest | src/Myrtus.Clarity.Generator.Presentation/Program.cs:41-77 | The statements of Main, up to the hand-over, compute Resolve. |

## Left out

- Case folding: `StringComparison.OrdinalIgnoreCase`, `RegexOptions.IgnoreCase` and `ToLower` fold ASCII letters only. Unicode case mappings and culture rules are not modelled.
- The regex classes `\w` and `\s` are their ASCII parts. The Unicode letters and separators that .NET also accepts are not modelled.
- `EndsWith` and `StartsWith` without a comparison argument are culture-sensitive in .NET. Examples are the file-kind tests in ProjectGenerator.cs and `StartsWith("--")` at Program.cs line 28. Both are modelled as ordinal tests.
- FileSystem.ReadAllText / FileSystem.WriteAllText: a file holds decoded text. Encodings, byte-order marks and binary files are not modelled. `GetFiles` with `"*.*"` lists binary files too, and .NET may change their bytes when it rewrites them as text.
- Paths use `/` as the only separator, and `Path.DirectorySeparatorChar` is taken to be `/`.
- FileSystem.ParentOf: for a path directly under the root, such as `/a`, the model gives the empty parent. .NET's `Path.GetDirectoryName` gives `/`.
- Common.Unlines: `File.WriteAllLines` ends each line with `Environment.NewLine`. The model takes that to be `"\n"`. On Windows it is `"\r\n"`.
- Substitution tokens in replacement strings, such as `$1` in a new name, are not interpreted. The new name is inserted literally.
- The old name, `TemplateName`, is required to be non-empty. `string.Replace` throws on an empty old value, and the configuration always provides one.
- Process calls are parameters: `git clone`, `git submodule update`, `git submodule add` and `RunProcessAsync`. The model does not capture what git writes beyond the tree it returns.
- Modules.AddedModuleHasNoNestedCore: assumes the tree returned by `git submodule add` is well formed, that is, every entry's parent folder exists.
- The status text, `AnsiConsole` output, the summary panel and the Figlet title are left out, as is the module multi-select prompt (Program.cs lines 79-104). Only the decision to prompt is modelled.
- The answers to the two `AnsiConsole.Ask` prompts are parameters. So are `Console.IsInputRedirected` and `AppDomain.CurrentDomain.BaseDirectory`.
- The `finally` block that deletes the working copy, and the order of the steps in `GenerateProjectAsync`, are not modelled as one operation. Each step is modelled on its own.
- Listing order: `GetDirectories` and `GetFiles` return each entry once, in an order the model leaves open. `OrderBy` is modelled as a stable sort by length.
- File.Delete of a file whose folder is missing throws in .NET. The model treats the delete of an absent file as a no-op.
- `Directory.Move` across volumes, file locks, permissions and partial writes are not modelled. A call either succeeds completely or throws before changing anything.
- Async: the `async`/`await` structure is modelled as sequential code.

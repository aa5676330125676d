# Testcontainers test generator, modelled in Dafny

This project models the deterministic core of `AITestGenerator` (src/github/testgenerator.py).
The generator clones a Java repository and walks its sources. For each class worth testing it
asks a text-generation service for a Testcontainers integration test, and it writes the cleaned
answer under `src/test/java`. It also asks which external services the class depends on, and it
patches `pom.xml` with the dependencies the manifest still lacks.

The service's answers are inputs: `Reply = Answer(text) | Failure`, one `Replies(test, deps,
patch)` per file. Everything around the answers is modelled as the code does it:

- the file classifier, including the meaning of `re.search(r'package\s+(.*?);', code)`;
- the fence cleaning;
- the dependency-list check;
- the manifest patch;
- the path mapping;
- the per-file loop with its exception handling;
- the credential embedding in the clone URL.

Modules, one file each:

- `Outcomes`: `Option`, `Reply`, and `Outcome` (a value returned, or an exception raised).
- `Text`: the Python `str` operations used: `isspace`, `in`, `replace`, `strip` and `rindex`.
- `Fences`: cleaning of answers (`strip`, drop every tagged fence, drop every "```", `strip`).
- `Classifier`: the path and content rules, and the package pattern as a backtracking match.
- `Synthesizer`: `analyze_code`.
- `Dependencies`: `detect_dependencies`. A strict list reader stands in for `eval`.
- `Manifest`: the needed set and the splice of `update_dependencies`.
- `Paths`: the source and test paths, and the module-descriptor test.
- `RepoUrl`: the clone URL with the embedded token.
- `Pipeline`: the class `Generator`, whose fields are the manifest and the written tests. Its
  methods `UpdateDependencies` and `GenerateTests` are proved against the functions `Patch` and
  `RunFiles`. The module also holds the loop invariants and the worked example.

The code and the intended design differ in two places:

- The model follows the code: `detect_dependencies` returns the parsed list as it is. Names outside the six-name vocabulary
  of main.py are not filtered out. `Pipeline.PatchIgnoresUnknownNames` proves this has no effect
  on the manifest. Only postgresql, mongodb and redis are ever looked for, and a list is patched
  exactly as the list of its known names.
- The model follows neither exactly: the code evaluates the answer with `eval`, and the model
  reads it with a strict grammar instead:
  `[`, optional blanks, then quoted tokens separated by commas, then `]`. Inside a token there is
  no quote, backslash, line break or NUL.

## Model

| member | source | states |
|---|---|---|
| Classifier.MatchAt | src/github/testgenerator.py:54 | the match found at a position is a backtracking match of `package\s+(.*?);` that the engine prefers: greedy whitespace, then the shortest group; it is None exactly when no match starts there |
| Classifier.NoMatchPastSpaces | src/github/testgenerator.py:54 | giving back whitespace never rescues a failed match: no ';' before a line break after the whitespace run means no match at that position at all |
| Classifier.GreedyIsPreferred | src/github/testgenerator.py:54 | the greedy whitespace run followed by the first ';' is a match, and it is preferred over every other match at that position |
| Classifier.FirstMatchFrom | src/github/testgenerator.py:54 | the match reported is the leftmost one from the given position on, and the preferred one there; None means no match anywhere from there |
| Classifier.PackageName | src/github/testgenerator.py:54-55 | None exactly when the pattern matches nowhere; otherwise the group of the first match as `re.search` reports it |
| Classifier.PackageNameShape | src/github/testgenerator.py:54-55 | the package name never spans a line break, never holds ';' and never starts with whitespace |
| Classifier.ClassifyCandidate | src/github/testgenerator.py:45-58 | a file is a candidate with name n exactly when its path has none of config, entity and /model/, its content has neither @Entity nor @Configuration, and the first match's group is n and is non-empty |
| Classifier.ExcludedPathSkips | src/github/testgenerator.py:45-46 | an excluded path is skipped whatever the file holds |
| Classifier.NoPackageSkips | src/github/testgenerator.py:54-58 | a file the package pattern does not match is skipped |
| Classifier.SimplePackage | src/github/testgenerator.py:54-55 | `package com.x;` has package name `com.x` |
| Text.Strip | src/github/testgenerator.py:121 | the stripped text is a piece of the original with no whitespace at either end |
| Text.LastIndexOf | src/github/testgenerator.py:264 | `rindex` finds the last occurrence, and fails exactly when there is none |
| Text.ReplaceAllKeepsSuffix | src/github/testgenerator.py:306-307 | when a pattern cannot overlap itself, a text ending with it ends with the replacement after `replace` |
| Fences.CleanReply | src/github/testgenerator.py:121 | a cleaned answer holds no "```" and has no whitespace at either end |
| Fences.RemoveFencesShape | src/github/testgenerator.py:121 | `replace("```", "")` leaves no run of three backticks, and it keeps a first character that is not a backtick |
| Fences.NoFenceAfterRemoval | src/github/testgenerator.py:121 | after the fence removal no "```" remains anywhere |
| Fences.CleanReplyIdempotent | src/github/testgenerator.py:121 | cleaning a cleaned answer changes nothing |
| Fences.CleanFenced | src/github/testgenerator.py:121 | an answer wrapped in a tagged fence, with whitespace around the code, cleans to exactly the code when the code holds no backtick |
| Synthesizer.AnalyzeCode | src/github/testgenerator.py:44-121 | a skipped file gives "" without the service; the call raises exactly for a candidate whose service call fails; a returned test is fence-free and stripped |
| Synthesizer.SkippedIgnoresService | src/github/testgenerator.py:45-58 | for a skipped file the service's answer makes no difference |
| Dependencies.TokenBody | src/github/testgenerator.py:179 | a token read up to its closing quote holds only token characters, and the text splits into token, quote and rest |
| Dependencies.Elements | src/github/testgenerator.py:179 | a non-empty list body that is read ends with ']' and holds only valid tokens |
| Dependencies.AfterToken | src/github/testgenerator.py:179 | what follows a token is read only when it ends with ']', and every name it yields is a valid token |
| Dependencies.Parse | src/github/testgenerator.py:179-184 | an accepted answer starts with '[' and ends with ']', and every name in it is a valid token |
| Dependencies.DetectDependencies | src/github/testgenerator.py:172-195 | a failed call gives []; every detected name is a valid token |
| Dependencies.ParseFormat | src/github/testgenerator.py:179-184 | reading a list written as `["a", "b"]` gives the names back (round trip) |
| Dependencies.ElementsOfJoin | src/github/testgenerator.py:179 | the body of a written list reads back as its names |
| Dependencies.DetectFormatted | src/github/testgenerator.py:172-184 | a written list of names without backticks is detected as exactly those names |
| Dependencies.DetectFenced | src/github/testgenerator.py:172-184 | the same list inside a ```python fence is detected as exactly those names |
| Dependencies.DetectCleaned | src/github/testgenerator.py:172-184 | an answer that cleans to a written list is detected as that list |
| Dependencies.DetectedWasParsed | src/github/testgenerator.py:172-195 | a non-empty result comes from an answer whose cleaned text the reader accepted, as that list |
| Dependencies.DetectIsParse | src/github/testgenerator.py:172-184 | any list the reader accepts from the cleaned answer, in any spelling (single quotes, no blanks, several lines), is returned as read |
| Dependencies.DetectRejectsUnparsed | src/github/testgenerator.py:172-195 | a cleaned answer the reader rejects gives [] |
| Dependencies.NulRejected | src/github/testgenerator.py:178-189 | a list whose quoted name holds a NUL is rejected, as `eval` rejects it and the handler returns [] |
| Dependencies.GuardImpliedByParse | src/github/testgenerator.py:173-176 | the bracket check never rejects a text the reader accepts |
| Manifest.ComputeNeeded | src/github/testgenerator.py:206-212 | the needed set is the set of postgresql, mongodb and redis that the services name and whose `<artifactId>` marker the manifest lacks |
| Manifest.NeededWithinPatched | src/github/testgenerator.py:206-212 | only postgresql, mongodb and redis are ever needed; kafka never is |
| Manifest.NothingNeeded | src/github/testgenerator.py:206-218 | nothing is needed exactly when every patched service named is already declared |
| Manifest.Splice | src/github/testgenerator.py:264-270 | the splice fails exactly when there is no `</dependencies>`, and otherwise inserts the indented fragment at the last one |
| Manifest.SplicePreserves | src/github/testgenerator.py:264-270 | the spliced manifest is the old text before the last closing tag, then eight spaces, the fragment and a line break with four spaces, then the old text from the tag on |
| Manifest.PatchIsSplice | src/github/testgenerator.py:256-274 | where the patch applies, the new manifest is the splice of the cleaned fragment |
| Manifest.PatchChangesIffApplies | src/github/testgenerator.py:215-279 | the manifest changes exactly when something is needed, the service answers, the fragment holds `<dependency>` and the manifest has `</dependencies>`; otherwise it is byte-identical |
| Manifest.NoStraddle | src/github/testgenerator.py:264-270 | an `<artifactId>` marker never overlaps a `</dependencies>` tag |
| Manifest.MarkerKept | src/github/testgenerator.py:264-274 | a service declared before a patch is still declared after it |
| Manifest.FragmentKept | src/github/testgenerator.py:264-270 | whatever the fragment holds, the spliced manifest holds |
| Manifest.NeededShrinks | src/github/testgenerator.py:206-274 | a patch never makes a service needed that was not needed before |
| Manifest.PatchSettles | src/github/testgenerator.py:206-274 | after a patch whose fragment declares every needed service, nothing is needed, and a second patch leaves the manifest unchanged whatever the service answers (idempotence) |
| Paths.TestPathOfClass | src/github/testgenerator.py:304-307 | `<dir>/B.java` is tested at `temp_repo/src/test/java/<dir>/BIntegrationTest.java` |
| Paths.TestPathRenamesDirectories | src/github/testgenerator.py:306-307 | every ".java" in the relative path is rewritten, including one inside a directory name |
| Paths.TestPathInjective | src/github/testgenerator.py:304-307 | distinct classes get distinct test paths |
| Paths.TestPathSuffix | src/github/testgenerator.py:304-307 | every Java source's test path is under the test root and ends in IntegrationTest.java |
| Paths.TestNeverSource | src/github/testgenerator.py:304-307 | a test path is never a source path |
| Paths.DescriptorsAreMetadata | src/github/testgenerator.py:290-291 | package-info.java and module-info.java are recognised anywhere in the tree |
| Paths.PlainSourceNotMetadata | src/github/testgenerator.py:290-291 | a source path with no '-' is never taken for a descriptor |
| RepoUrl.Authenticated | src/github/testgenerator.py:17-20 | a URL without the https scheme is used as given; an https URL starts with `https://<token>@` |
| RepoUrl.EmbedsOnce | src/github/testgenerator.py:17-18 | an https URL with no other "https://" gets the token once and keeps the rest |
| RepoUrl.EmbedsEveryOccurrence | src/github/testgenerator.py:18 | a second "https://" later in the URL gets the token as well |
| Pipeline.UpdateManifest | src/github/testgenerator.py:198-200 | a missing manifest stays missing, and an existing one never shrinks |
| Pipeline.ProcessFile | src/github/testgenerator.py:295-317 | the only exception left to the handler is a failed test call |
| Pipeline.Generator.constructor | src/github/testgenerator.py:13-20 | the clone URL is the authenticated URL, and the generator works in the given checkout |
| Pipeline.Generator.UpdateDependencies | src/github/testgenerator.py:197-279 | the manifest becomes its patch for the services and the answer; its frame lets nothing but the manifest change |
| Pipeline.Generator.HandleFile | src/github/testgenerator.py:290-325 | one pass of the loop body, with its try and except, changes the state as `Step` says |
| Pipeline.Generator.GenerateTests | src/github/testgenerator.py:281-325 | the state after the loop is `RunFiles` of the state before, the files and the answers |
| Pipeline.RunFilesAppend | src/github/testgenerator.py:289 | processing two batches in turn is processing them together |
| Pipeline.FailedFileChangesNothing | src/github/testgenerator.py:320-325 | a file whose test call fails leaves the workspace as it was |
| Pipeline.FailureIsolated | src/github/testgenerator.py:289-325 | a failing file is as if it were absent, and every later file is still processed |
| Pipeline.DescriptorSkipped | src/github/testgenerator.py:290-291 | descriptors are passed over whatever the service would answer |
| Pipeline.StepInvariant | src/github/testgenerator.py:296-317 | one pass keeps written tests clean, keeps every test file, adds at most the file's own test path, and never removes or shrinks the manifest |
| Pipeline.RunFilesInvariant | src/github/testgenerator.py:289-317 | after the loop every added test file is at the test path of a processed file, the tests stay clean, and the manifest neither appears, disappears nor shrinks |
| Pipeline.RunFilesKeepsMarkers | src/github/testgenerator.py:289-317 | a service the manifest declared stays declared after the whole run |
| Pipeline.QuietRunIsolates | src/github/testgenerator.py:320-325 | outside debug mode the loop as written is the isolating loop |
| Pipeline.DebugRunAborts | src/github/testgenerator.py:320-323 | in debug mode one candidate file whose test call fails ends the whole run with an exception |
| Pipeline.OneClassScenario | src/github/testgenerator.py:289-311 | `com/x/B.java` declaring `package com.x;` with a java-fenced answer `class X{}` and a failed dependency call writes exactly `class X{}` at `temp_repo/src/test/java/com/x/BIntegrationTest.java` and leaves the manifest alone |
| Pipeline.KnownServices | src/testcontainers_demo_generator/main.py:29-35 | keeps exactly the names of a list that are among the six known services |
| Pipeline.PatchIgnoresUnknownNames | src/github/testgenerator.py:206-212 | the needed set, and so the patch, are the same for a list and for its known names |

## Left out

- The service calls are not modelled: prompts, model names, temperature and token limits. Their answers are inputs.
- Provider selection and the `ValueError` raised when no key is given are not modelled.
- The Anthropic and OpenAI clients are not modelled.
- `clone_repo`, `create_branch`, `commit_and_push` and `main` are version-control and process operations. They are not part of this model.
- The scan of the checkout is an input: the files `glob` finds, in its order, as paths relative to `temp_repo/src/main/java`. The classifier sees the full path `temp_repo/src/main/java/<rel>`.
- `os.makedirs`, `open`, `read_text` and `write_text` become the workspace's map of test files and its optional manifest. Their I/O errors are not modelled.
- Sources and the manifest are the text as read, with line ends normalised by text-mode I/O (lines 48, 124, 203 and 274). `Manifest.SplicePreserves` keeps every character of that text, not every byte of the file: a patched CRLF `pom.xml` is written back with the platform's line ends.
- Debug and progress `print` calls have no effect in the model. The exception is the handler at line 323, which is recorded under Findings.
- `repo_url` is always a string. The `AttributeError` that `None` would cause is not modelled.
- Dependencies.Parse: rejects every list form outside its grammar, so such answers give `[]` where `eval` could give a list the code would use. Examples are trailing commas, escapes or quotes inside strings, string prefixes (`u"redis"`, `r'redis'`), triple-quoted strings, adjacent string literals, comments, backslash line continuations, nested expressions and lists that mix strings with other values (`[1, "postgresql"]`, which the code patches for postgresql). A NUL inside a token is rejected, as `eval` rejects it.
- Dependencies.DetectDependencies: does not keep only names from the six-name vocabulary, which the design promises, because the code does not filter. `Pipeline.PatchIgnoresUnknownNames` shows why this is harmless: unknown names change neither the needed set nor the manifest.
- Pipeline.Generator.GenerateTests: takes exactly one `Replies` per file, even for files that never reach the service. A reply that is not used has no effect.
- Pipeline.Generator.GenerateTests: is the loop with debug output off, since `Generator` has no `debug` field. The debug-on loop is `Pipeline.RunFilesAsWritten`, and `Pipeline.QuietRunIsolates` ties the two together.
- Crew, agent and command-line code (crew.py, main.py) is not part of this model. The only exception is the six-name service vocabulary.

## Findings

| source | as written | input that shows it | evidently intended | confidence | as-written member | corrected member |
|---|---|---|---|---|---|---|
| src/github/testgenerator.py:320-323 | in debug mode the `except` clause calls `print("Stack trace:", exc_info=True)`; `print` takes no `exc_info` keyword, so the handler raises `TypeError` and the loop and the run end | debug mode on, and one candidate file (for example `package com.x;`) whose test call fails, followed by any further files | the error is reported and the loop goes on with the next file, as outside debug mode | not executed; high (`print` accepts only sep, end, file and flush) | Pipeline.DebugRunAborts | Pipeline.FailureIsolated |

# PasteMark core, modelled in Dafny

PasteMark is a VS Code extension that pastes the image on the system clipboard into a
Markdown document. It asks a platform adapter (Windows, WSL, Linux, macOS) for the image, or
falls back to a base64 or `data:image/...` text on the clipboard. It names the file after the
selected text, a suggestion from a local Ollama model, or a timestamp, saves it next to the
document under a unique name, and inserts `![alt](./relative/path)`.

This project models that core as pure Dafny functions over immutable data. The modules follow
the source files:

| module | models |
|---|---|
| `Signatures`, `BaseClipboard`, `ClipboardService`, `ClipboardManager`, `SnifferDivergence` | the three copies of the magic-number sniffer (`isImageBuffer`, `detectImageFormat`), each kept separate and related to one shared signature table |
| `Base64`, `DataUrl` | `Buffer.from(…, 'base64')`, `toString('base64')` and the `data:image/(\w+);base64,(.+)` match |
| `ClipboardService` | the text-clipboard service (`isImageData`, `parseImageData`, `hasImage`, `getImage`) |
| `ClipboardManager` | the native-first, text-second fallback, `isBase64Image`, `parseBase64Image` and adapter selection (`isWSL`, `createPlatformClipboard`) |
| `PlatformAdapter`, `WindowsClipboard`, `LinuxClipboard`, `MacClipboard`, `WslClipboard`, `WslPaths` | how a helper's exit code and stdout become "image path", "no image" or an error; the temp-file registry and `cleanup`; the WSL/Windows path rewrite |
| `StringUtils` | `sanitizeFileName`, `truncateFileName`, `generateTimestampFileName` |
| `OllamaClient` | `cleanFileName`, the availability cache, `analyzeImage`'s error mapping and `updateConfig` |
| `ImageProcessor` | `generateFileName`'s source priority and `processImage`'s size limit |
| `Paths`, `FileManager` | a POSIX segment model of Node's `path`; the unique-name search, `fileExists`, `saveImage`, `deleteFile`, `getRelativePath`, `buildImagePath` |
| `EditorService` | selection, replace and insert over a document text, and `buildMarkdownImage` |
| `PasteCommand` | `execute` as a sequence of decisions over the collaborators' outcomes, with the rollback |
| `Messages`, `Changelog` | `MessageUtils.formatError`/`formatInfo`, and the `[Unreleased]` header rewrite |
| `Wrappers`, `Text`, `Bytes` | `Option`/`Result`, JavaScript's whitespace class and `trim`, and the string helpers |

The clock, the HTTP outcomes, the helper processes' results, the clipboard text, the file
system and the `wslpath` command are parameters. A file system is a map from path to entry.
A run of the paste command is a record of effects (notifications, writes, deletes, cleanups),
the resulting disk and the resulting document text.

Notes on what the code does, which the model follows:
- the cleaned model suggestion keeps `_`: the filter is `[^\w-]`, although its comment at
  `src/services/ollamaClient.ts:116` speaks only of letters, digits and hyphens;
- the clipboard manager's sniffer has no WebP case and picks a format from two bytes, and the
  text service's sniffer requires `GIF8`; only `base.ts` matches all five signatures;
- temp files are deleted only by `cleanup`, which runs after a successful paste and in the outer
  error handler;
- with no selection the alt text is the saved file's name without extension (for a timestamp
  name, `image-YYYYMMDD-HHMMSS`);
- a missing selection is not a failure; the selection only decides replace versus insert and
  the naming source;
- `truncateFileName` with a limit below 3 returns `...`, which is longer than the limit;
- `saveImage` creates a missing directory before writing, so a write that fails leaves that
  directory behind;
- `String.prototype.replace` expands `$$`, `$&`, `` $` `` and `$'` in the changelog's new
  version header, so a version holding `$` is not inserted literally.

## Model

| member | source | states |
|---|---|---|
| Signatures.EntryBytes | src/clipboard/base.ts:42-64 | each signature entry matches exactly its magic bytes: PNG `89 50 4E 47`, JPEG `FF D8 FF`, GIF `47 49 46` (or `47 49 46 38`), BMP `42 4D`, and `RIFF` with `WEBP` at bytes 8-11 in a buffer of at least 12 bytes |
| Signatures.FirstMatch | src/clipboard/base.ts:72-95 | a table lookup answers None exactly when no entry matches, and otherwise a format whose entry matches |
| BaseClipboard.IsImageBufferIffTable | src/clipboard/base.ts:39-67 | `isImageBuffer` is true if and only if the buffer has at least 4 bytes and one of the five signatures matches |
| BaseClipboard.TableSteps | src/clipboard/base.ts:42-64 | the signatures are tried in the order png, jpg, gif, bmp, webp |
| BaseClipboard.DetectIsFirstMatch | src/clipboard/base.ts:72-95 | for 4 bytes or more, `detectImageFormat` is the format of the first matching signature, and `png` when none matches |
| BaseClipboard.DetectImpliesImage | src/clipboard/base.ts:39-95 | a format other than `png` implies an image, and a non-image always detects as `png` |
| BaseClipboard.RiffWithoutWebp | src/clipboard/base.ts:59-64 | a `RIFF` header without `WEBP` at bytes 8-11, or shorter than 12 bytes, is neither an image nor `webp` |
| ClipboardService.IsImageBufferIffTable | src/services/clipboardService.ts:100-134 | this copy is true exactly for the table whose GIF entry needs the four bytes `GIF8` |
| ClipboardService.TableSteps | src/services/clipboardService.ts:100-134 | the order of checks is png, jpg, gif8, bmp, webp |
| ClipboardService.DetectIsFirstMatch | src/services/clipboardService.ts:139-173 | detection is the first match of the same table, `png` by default |
| ClipboardService.DetectImpliesImage | src/services/clipboardService.ts:100-173 | a non-`png` format implies an image, and a non-image detects as `png` |
| ClipboardService.IsImageData | src/services/clipboardService.ts:39-62 | empty text is not an image; any `data:image/` text is; other text is exactly when, without whitespace, it matches `^[A-Za-z0-9+/]+=*$` and its decoding passes the sniffer |
| ClipboardService.ParseImageData | src/services/clipboardService.ts:67-95 | every parsed image passes the sniffer; a data URL yields the regex's format and decoded payload; bare text yields the decoding of the trimmed text with its detected format, or nothing |
| ClipboardService.HasImage | src/services/clipboardService.ts:8-16 | a failed clipboard read gives false; otherwise the answer is `isImageData` of the text |
| ClipboardService.GetImage | src/services/clipboardService.ts:21-34 | a failed read gives null; bare base64 text gives an image exactly when `isImageData` accepts it, holding its decoding and detected format; a data URL gives one exactly when the full pattern matches and the payload decodes to an image, holding that payload and the URL's format |
| ClipboardService.GetImpliesHas | src/services/clipboardService.ts:8-34 | whenever `getImage` returns an image, `hasImage` is true on the same clipboard |
| ClipboardService.HasIffGetOnBase64 | src/services/clipboardService.ts:8-34 | away from data URLs, `getImage` returns an image exactly when `hasImage` is true |
| ClipboardService.DataUrlFormatVerbatim | src/services/clipboardService.ts:74-79 | for a well-formed data URL whose payload decodes to an image, the format is copied from the URL verbatim (`jpeg` stays `jpeg`) |
| ClipboardService.MalformedDataUrl | src/services/clipboardService.ts:45-88 | `data:image/png;base64,` with no payload makes `hasImage` true and `getImage` null |
| ClipboardService.HelloWorldIsNotImage | src/services/clipboardService.ts:50-61 | the text `Hello World` is not an image |
| DataUrl.MatchImageUrl | src/services/clipboardService.ts:74 | a match splits the text into `data:image/`, a `\w+` format, `;base64,` and a non-empty single-line payload |
| DataUrl.MatchImageUrlComplete | src/services/clipboardService.ts:74 | every text of that shape matches, with exactly those parts |
| Base64.DecodeEncode | src/services/ollamaClient.ts:60 | decoding the base64 encoding of any byte sequence gives the bytes back |
| Base64.EncodeMatchesPattern | src/services/clipboardService.ts:50-51 | the encoding of non-empty bytes matches `^[A-Za-z0-9+/]+=*$` |
| Base64.DecodeLeadingByte | src/services/clipboardService.ts:54 | the first decoded byte is determined by the first two base64 characters |
| Base64.DecodeTrim | src/services/clipboardService.ts:54-82 | decoding the trimmed text gives the same bytes as decoding the text, so the test of `isImageData` and the parse agree |
| ClipboardManager.HasImage | src/clipboard/clipboardManager.ts:30-57 | the text clipboard is read only when the adapter said false; the answer is the adapter's true, or the text test; a thrown adapter gives false |
| ClipboardManager.GetImage | src/clipboard/clipboardManager.ts:59-80 | a non-null adapter image is returned as is; on null the text clipboard is read, and text that `isBase64Image` accepts is returned parsed while other text or a failed read gives null; a throwing adapter gives null |
| ClipboardManager.IsBase64Image | src/clipboard/clipboardManager.ts:141-154 | empty text is false, a `data:image/` prefix is true, and other text is true exactly when its trimmed decoding passes this file's sniffer |
| ClipboardManager.ParseBase64Image | src/clipboard/clipboardManager.ts:156-176 | a `data:image/` text parses exactly when the regex matches, with the verbatim format and no signature check; other text always parses to its trimmed decoding, never as `webp` |
| ClipboardManager.AnnouncedButNotParsed | src/clipboard/clipboardManager.ts:141-176 | a `data:image/` text that fails the regex makes `hasImage` true while `getImage` returns null |
| ClipboardManager.FallbackAgreesWithHas | src/clipboard/clipboardManager.ts:30-80 | with the adapter silent, `getImage` returns an image exactly when `hasImage` is true, unless the text is a data URL that fails the regex |
| ClipboardManager.IsImageBufferIffTable | src/clipboard/clipboardManager.ts:178-199 | this copy is true exactly for PNG, JPEG, GIF or BMP in 4 bytes or more |
| ClipboardManager.TableSteps | src/clipboard/clipboardManager.ts:178-199 | its order is png, jpg, gif, bmp, with no WebP |
| ClipboardManager.WebpRejected | src/clipboard/clipboardManager.ts:178-199 | any `RIFF` buffer, WebP included, is rejected |
| ClipboardManager.DetectAgreesOnImages | src/clipboard/clipboardManager.ts:201-210 | on buffers it accepts, the two-byte detection agrees with the full signature match |
| ClipboardManager.CreatePlatformClipboard | src/clipboard/clipboardManager.ts:86-105 | WSL wins first; otherwise `win32`, `darwin` and `linux` pick their adapters; any other platform fails with `Unsupported platform: <name>` |
| ClipboardManager.ProcVersionFailureIsNotWsl | src/clipboard/clipboardManager.ts:107-121 | with neither WSL variable set, an unreadable `/proc/version` means not WSL |
| ClipboardManager.MicrosoftKernelSelectsWsl | src/clipboard/clipboardManager.ts:114-117 | `microsoft` anywhere in the lower-cased `/proc/version` selects the WSL adapter |
| SnifferDivergence.StricterThanBase | src/clipboard/clipboardManager.ts:178-199 | whatever the text service's or the manager's sniffer accepts, the base sniffer accepts |
| SnifferDivergence.GifWithoutEight | src/services/clipboardService.ts:116 | `47 49 46 39` is a GIF for the base sniffer but not an image for the text service |
| SnifferDivergence.WebpOnlyTwoOfThree | src/clipboard/clipboardManager.ts:178-210 | a minimal WebP header is `webp` for two sniffers and not an image for the manager |
| SnifferDivergence.ManagerDetectsOnTwoBytes | src/clipboard/clipboardManager.ts:201-210 | `FF D8 00 00` is `jpg` for the manager's detection although its own `isImageBuffer` rejects it |
| PlatformAdapter.SettleZeroOrOne | src/clipboard/windows.ts:112-132 | exit code 0 or 1 resolves with the trimmed stdout; any other code rejects with `... exited with code N: <stderr>`; a spawn error or the timeout rejects |
| PlatformAdapter.ExitCodeText | src/clipboard/windows.ts:120 | the exit code in the message is its decimal text, or `null` when the process had none |
| PlatformAdapter.GetImage | src/clipboard/windows.ts:41-68 | an image is returned exactly for a real path to an existing file; it holds the file's bytes and detected format and its path joins the temp-file set, which is otherwise unchanged |
| PlatformAdapter.GetImpliesHas | src/clipboard/windows.ts:28-68 | `getImage` returning an image implies `hasImage` is true for the same helper result |
| PlatformAdapter.UnknownBytesBecomePng | src/clipboard/windows.ts:56-63 | a temp file with no known signature is still returned, tagged `png` |
| PlatformAdapter.Cleanup | src/clipboard/windows.ts:70-83 | after cleanup the temp-file set is empty, the registered files that could be deleted are gone, and nothing else changes |
| WindowsClipboard.RunPowerShellScript | src/clipboard/windows.ts:85-134 | exit 0 or 1 gives the trimmed stdout; other exits reject with `PowerShell exited with code`; the timeout rejects with `PowerShell script timeout` |
| WindowsClipboard.HasImage | src/clipboard/windows.ts:28-39 | true if and only if the helper settled with 0 or 1 and printed something other than empty, `no image` or `error:...` |
| WindowsClipboard.GetImage | src/clipboard/windows.ts:41-68 | an image exactly when `hasImage` holds and the printed file exists; only then is the path registered |
| WindowsClipboard.FailedRunIsNoImage | src/clipboard/windows.ts:35-67 | a rejected helper run gives false and null and leaves the temp files alone |
| LinuxClipboard.RunShellScript | src/clipboard/linux.ts:79-116 | the same settlement with `Shell script exited with code` and `Shell script timeout` |
| LinuxClipboard.HasImage | src/clipboard/linux.ts:20-28 | true if and only if the run settled with 0 or 1 and printed a path |
| LinuxClipboard.GetImage | src/clipboard/linux.ts:30-62 | an image exactly when `hasImage` holds and the file exists; the path is then registered |
| LinuxClipboard.FailedRunIsNoImage | src/clipboard/linux.ts:20-62 | a rejected run gives false and null and registers nothing |
| MacClipboard.RunAppleScript | src/clipboard/macos.ts:75-112 | a non-zero exit resolves to `no image`; only a spawn error or the timeout rejects |
| MacClipboard.HasImage | src/clipboard/macos.ts:20-28 | true if and only if the script exited 0 and printed a path |
| MacClipboard.GetImage | src/clipboard/macos.ts:30-58 | an image exactly when `hasImage` holds and the file exists; the path is then registered |
| MacClipboard.NonZeroExitIsNoImage | src/clipboard/macos.ts:95-99 | every non-zero exit reads as `no image`, hence no image |
| WslClipboard.PowerShellArgs | src/clipboard/wsl.ts:35-42 | the script path handed to `powershell.exe` is first rewritten to Windows form; `/mnt/d/rest` becomes `D:\rest` |
| WslClipboard.RunPowerShellScript | src/clipboard/wsl.ts:60-75 | it fails exactly when the Windows settlement fails; a printed path is rewritten to WSL form and sentinels pass through unchanged |
| WslClipboard.GetImage | src/clipboard/wsl.ts:17-27 | an image exactly when `hasImage` holds and the printed path, rewritten to WSL form, is a readable file; it holds that file's bytes and detected format, and only then is the rewritten path registered |
| WslClipboard.HasImageAgainstWindows | src/clipboard/wsl.ts:65-70 | WSL's answer implies the Windows answer for the same run, and they agree whenever the printed path has a drive letter |
| WslClipboard.DrivePathReadUnderMount | src/clipboard/wsl.ts:65-73 | a printed `X:\rest` is returned as `/mnt/x/rest` with forward slashes |
| WslPaths.ConvertToWindowsPath | src/clipboard/wsl.ts:88-108 | a path outside `/mnt/` goes to the `wslpath -w` fallback, which returns the command's trimmed output, or the input when the command fails |
| WslPaths.ConvertToWSLPath | src/clipboard/wsl.ts:113-131 | a drive path becomes `/mnt/` plus a lower-case letter, `/` and a backslash-free rest, four characters longer; anything else goes to `wslpath -u` |
| WslPaths.MountToDrive | src/clipboard/wsl.ts:90-97 | `/mnt/d/rest` maps to the upper-cased drive, `:\`, and `rest` with `/` replaced by `\` |
| WslPaths.DriveToMount | src/clipboard/wsl.ts:115-120 | `L:\rest` maps to `/mnt/`, the lower-cased letter, `/`, and `rest` with `\` replaced by `/` |
| WslPaths.WslWindowsRoundTrip | src/clipboard/wsl.ts:88-120 | for a lower-case drive letter and a rest without `\`, converting to Windows form and back gives the original path |
| WslPaths.WindowsWslRoundTrip | src/clipboard/wsl.ts:88-120 | for an upper-case drive letter and a rest without `/`, converting to WSL form and back gives the original path |
| WslPaths.BareDriveGoesToCommand | src/clipboard/wsl.ts:90-92 | `/mnt/c` has only three segments, so it is not rewritten but handed to `wslpath` |
| StringUtils.SanitizeFileName | src/utils/stringUtils.ts:4-22 | the result is never empty and has no reserved character, no whitespace, no `--` and no leading or trailing `-` |
| StringUtils.SanitizeKeepsNameChars | src/utils/stringUtils.ts:4-22 | the characters that are neither reserved, whitespace nor `-` survive in order; when there are none the result is `untitled` |
| StringUtils.SanitizeFixedPoint | src/utils/stringUtils.ts:4-22 | a name that is already clean is returned unchanged |
| StringUtils.SanitizeIdempotent | src/utils/stringUtils.ts:4-22 | sanitizing twice equals sanitizing once |
| StringUtils.SanitizeAfterReplaceReserved | src/utils/stringUtils.ts:10-14 | two non-blank inputs that differ only in which reserved characters they hold sanitize alike |
| StringUtils.SanitizeRewriteClean | src/utils/stringUtils.ts:10-14 | a non-empty output of the four rewrites is a clean name |
| StringUtils.OnlyHyphensStripToEmpty | src/utils/stringUtils.ts:14 | text with neither reserved characters, whitespace nor name characters is all hyphens and strips to empty |
| StringUtils.SanitizeExampleReserved | src/utils/stringUtils.ts:10-14 | `a/b:c` sanitizes to `a-b-c` |
| StringUtils.SanitizeExampleAllReserved | src/utils/stringUtils.ts:16-19 | `///***//` sanitizes to `untitled` |
| StringUtils.TruncateShape | src/utils/stringUtils.ts:27-47 | a short enough name is unchanged; with a usable extension the result is a prefix of the name, `...` and the extension, exactly at the limit; otherwise it is the first limit minus 3 characters and `...` |
| StringUtils.TruncateLength | src/utils/stringUtils.ts:32-46 | a truncated result has exactly the limit's length when the limit is 3 or more, and is `...` below 3 |
| StringUtils.TimestampShape | src/utils/stringUtils.ts:52-62 | the timestamp name is 21 characters, `image-`, 8 digits, `-`, 6 digits, whose decimal fields are year, month, day, hour, minute and second |
| StringUtils.TimestampInjective | src/utils/stringUtils.ts:52-62 | two different valid times never give the same name |
| OllamaClient.CleanFileName | src/services/ollamaClient.ts:110-122 | the cleaned name holds only `a-z`, digits, `_` and `-`, with no `--` and no hyphen at either end |
| OllamaClient.CleanIdempotent | src/services/ollamaClient.ts:110-122 | cleaning twice equals cleaning once |
| OllamaClient.CleanFixedPoint | src/services/ollamaClient.ts:110-122 | a name that is already clean is returned unchanged |
| OllamaClient.CleanKeepsWordChars | src/services/ollamaClient.ts:112-119 | the word characters of the response survive in order, lower-cased, and nothing else but hyphens is added |
| OllamaClient.SlugKeepsWordChars | src/services/ollamaClient.ts:112-118 | the rewrites before lower-casing keep exactly the word characters |
| OllamaClient.CleanWithoutWords | src/services/ollamaClient.ts:116 | a response with no ASCII word character cleans to the empty name |
| OllamaClient.CleanTwoWords | src/services/ollamaClient.ts:112-119 | two words, a whitespace gap and trailing punctuation clean to `word1-word2` in lower case |
| OllamaClient.CleanExample | src/services/ollamaClient.ts:112-119 | `Login Page!!` cleans to `login-page` |
| OllamaClient.CleanExampleCjk | src/services/ollamaClient.ts:116 | `系统架构图` cleans to the empty name |
| OllamaClient.IsAvailable | src/services/ollamaClient.ts:24-53 | it probes exactly when the cache is empty or a minute old; a fresh cache answers unchanged; a probe caches `response.ok`, or false on failure, stamped with the current time |
| OllamaClient.CacheRepeatsAnswer | src/services/ollamaClient.ts:26-32 | a second call within the minute repeats the first answer without probing |
| OllamaClient.StaleCacheProbes | src/services/ollamaClient.ts:26-32 | once a minute has passed, the next call probes |
| OllamaClient.UpdateConfig | src/services/ollamaClient.ts:127-137 | the settings are read again and the cache is emptied |
| OllamaClient.UpdateConfigForcesProbe | src/services/ollamaClient.ts:127-137 | after `updateConfig` the next availability check probes |
| OllamaClient.UpdateConfigIsFresh | src/services/ollamaClient.ts:127-137 | after `updateConfig` the client is exactly what the constructor builds from the same configuration: the same settings with the same defaults, and an empty availability cache stamped 0 |
| OllamaClient.AnalyzeImage | src/services/ollamaClient.ts:58-105 | success exactly for an ok answer with a non-empty response that cleans to a non-empty name, which is returned; an abort is `Request timeout`, a bad status is `Ollama API error: N`, a missing or empty response is `Invalid response from Ollama`, a response that cleans to nothing is `Empty filename from Ollama`, and a request failure keeps its message |
| OllamaClient.AnalyzedNameIsClean | src/services/ollamaClient.ts:92-98 | a suggested name is non-empty and already clean |
| ImageProcessor.ChooseBaseName | src/services/imageProcessor.ts:21-51 | a non-blank selection wins and is sanitized without consulting the model; otherwise, when the model is enabled, available and answers, its name is used; every other case uses the timestamp |
| ImageProcessor.GenerateFileName | src/services/imageProcessor.ts:21-58 | the file name is the truncation of base name, `.` and format to 255 characters, so it is at most 255 long |
| ImageProcessor.SelectionIgnoresModel | src/services/imageProcessor.ts:26-28 | with a usable selection the result depends on neither the model setting, the service, nor the clock, and the cache is untouched |
| ImageProcessor.ModelOffUsesClock | src/services/imageProcessor.ts:49-51 | with no usable selection and the model off, the name comes from the clock and the service is not asked |
| ImageProcessor.ModelOutcomeDecides | src/services/imageProcessor.ts:30-47 | with the model on, the name comes from the model exactly when it is available and the analysis succeeds |
| ImageProcessor.ModelNameKept | src/services/imageProcessor.ts:34-36 | a cleaned model name survives trimming and sanitizing unchanged |
| ImageProcessor.CleanSelectionFits | src/services/imageProcessor.ts:54-57 | a clean selection that fits gives exactly `selection.format` |
| ImageProcessor.FileNameExample | src/services/imageProcessor.ts:54-57 | `my-test-image` with `png` gives `my-test-image.png` |
| ImageProcessor.ProcessImageLimit | src/services/imageProcessor.ts:63-77 | the limit is 10 MiB inclusive: a buffer of exactly 10 * 1024 * 1024 bytes passes unchanged, and one byte more fails with `Image size exceeds 10MB limit` |
| ImageProcessor.ConfiguredFormat | src/services/imageProcessor.ts:82-85 | the configured format when non-empty, never an empty format |
| FileManager.FileExistsIffRegular | src/services/fileManager.ts:56-64 | a path exists exactly when it holds a regular file; a directory counts as free |
| FileManager.CandidatesDistinct | src/services/fileManager.ts:42-48 | the candidates `name-k.ext` are pairwise different and never equal the base path |
| FileManager.CandidateShape | src/services/fileManager.ts:44-47 | candidate k lies in the base path's directory and is named stem, `-k`, extension |
| FileManager.FirstFree | src/services/fileManager.ts:42-48 | the search stops at a free path: the base when free, otherwise the first free candidate, every earlier one being taken; the counter is bounded by the number of paths on disk |
| FileManager.EnsureUniqueFileName | src/services/fileManager.ts:38-51 | the returned path does not exist; it is the base path exactly when that is free, and otherwise the first free `-k` candidate |
| FileManager.UniqueChoiceDeterministic | src/services/fileManager.ts:38-51 | at most one path is the base when free or the first free `-k` candidate after taken ones, so the search result is determined by the disk |
| FileManager.SuffixBeforeExtension | src/services/fileManager.ts:44-47 | `my.image.name.png` becomes `my.image.name-1.png` |
| FileManager.SuffixWithoutExtension | src/services/fileManager.ts:44-47 | `image` becomes `image-1` |
| FileManager.TranslateSaveError | src/services/fileManager.ts:25-32 | `ENOSPC` wins and becomes `No space left on device`; otherwise `Permission` or `EACCES` becomes `Permission denied`; anything else is rethrown unchanged |
| FileManager.TranslateSaveErrorIdempotent | src/services/fileManager.ts:25-32 | translating a translated error changes nothing |
| FileManager.SaveImage | src/services/fileManager.ts:8-33 | a missing directory is created first; a failing create leaves the disk alone, a failing write leaves the created directory; either failure is reported translated; success stores the bytes at the path and every existing entry other than the path keeps its content |
| FileManager.WriteFailureLeavesDirectory | src/services/fileManager.ts:16-24 | a write that fails after the directory was created leaves exactly that new directory on the disk |
| FileManager.DeleteFile | src/services/fileManager.ts:69-76 | it never fails; a failed delete leaves the disk exactly as it was, a successful one removes the path, and every other entry is unchanged |
| FileManager.SaveThenDelete | src/services/fileManager.ts:8-76 | saving to a new path in an existing directory and deleting it again restores the disk |
| FileManager.GetRelativePath | src/services/fileManager.ts:81-83 | the relative path contains no backslash |
| FileManager.RelativePathResolves | src/services/fileManager.ts:81-83 | resolving the relative path from the document's directory leads to the target |
| FileManager.BuildImagePathShape | src/services/fileManager.ts:88-98 | the image path is the image directory followed by the file name, whose basename is that file name |
| FileManager.AbsoluteImagePathIgnoresDocument | src/services/fileManager.ts:96-97 | an absolute image directory gives the same path whatever the document |
| Paths.RelativeRoundTrip | src/services/fileManager.ts:82 | resolving `relative(from, to)` against `from` gives `to` |
| Paths.ParseRender | src/services/fileManager.ts:93 | rendering a normal path and parsing it again gives it back |
| Paths.NormalizeIdempotent | src/services/fileManager.ts:93 | normalizing a normalized path changes nothing |
| Paths.Stem | src/services/fileManager.ts:45-46 | stem followed by extension is the basename |
| Paths.ExtName | src/services/fileManager.ts:45 | the extension is empty or a proper `.`-suffix of the name |
| Paths.JoinNameBasename | src/services/fileManager.ts:47 | joining a directory and a name appends that name as the last segment, so the name is the basename |
| EditorService.GetSelection | src/services/editorService.ts:8-24 | null without an editor or with an empty selection; otherwise the selected text, which cut out of the document leaves the text around it |
| EditorService.ReplaceSelection | src/services/editorService.ts:29-43 | fails without an editor or with an empty selection; otherwise the new text replaces exactly the selected range |
| EditorService.InsertAtCursor | src/services/editorService.ts:48-58 | fails only without an editor; otherwise the text is inserted at the active position and everything else is kept |
| EditorService.InsertIsEmptyReplace | src/services/editorService.ts:35-57 | on an empty selection, replacing is refused while inserting puts the text where the selection was |
| EditorService.ReplaceBySelectedText | src/services/editorService.ts:29-43 | replacing the selection by its own text leaves the document unchanged |
| EditorService.BuildMarkdownImage | src/services/editorService.ts:94-98 | the reference is `![`, the alt text verbatim, `](`, a backslash-free target and `)` |
| EditorService.MarkdownImageTarget | src/services/editorService.ts:96-97 | the target is the path with every `\` turned into `/`, so a forward-slash path is kept |
| EditorService.MarkdownImageInjective | src/services/editorService.ts:94-98 | two paths give the same reference exactly when they agree after the slash rewrite |
| Messages.FormatError | src/constants/messages.ts:45-48 | the result is the message, `: ` and the error detail |
| Messages.FormatInfo | src/constants/messages.ts:53-55 | without a detail or with an empty one the message alone; otherwise message, `: ` and detail |
| Messages.FormatErrorInjective | src/constants/messages.ts:45-48 | for one message, equal outputs mean equal details |
| Messages.InfoAgreesWithError | src/constants/messages.ts:45-55 | with a non-empty detail, `formatInfo` equals `formatError` of an Error with that message |
| Messages.EmptyDetailIsNoDetail | src/constants/messages.ts:53-55 | an empty detail and no detail give the message alone |
| Changelog.CurrentDateShape | scripts/update-changelog.js:12-18 | the date is `YYYY-MM-DD`, 10 characters whose digit fields are year, month and day |
| Changelog.CurrentDateInjective | scripts/update-changelog.js:12-18 | different dates give different strings |
| Changelog.FirstMatch | scripts/update-changelog.js:39 | the search finds the leftmost position where `## [Unreleased]\s*\n` matches, or reports that none does |
| Changelog.MatchConsumes | scripts/update-changelog.js:39 | a match is the header, a whitespace run ending in a newline, and the greedy run leaves no further newline in the whitespace after it |
| Changelog.UpdateChangelog | scripts/update-changelog.js:28-52 | without a match the content is not rewritten; with one, only the first match is replaced, by the version header with `replace`'s `$` patterns expanded |
| Changelog.ExpandPrefix | scripts/update-changelog.js:44 | text before the first `$` of a replacement is copied unchanged |
| Changelog.LiteralVersion | scripts/update-changelog.js:43-44 | a version and date without `$` are inserted literally |
| Changelog.DoubledDollar | scripts/update-changelog.js:44 | `$$` in the version comes out as a single `$` |
| Changelog.ReplacementStarts | scripts/update-changelog.js:43-44 | whatever the version holds, the replacement opens with `## [Unreleased]` |
| Changelog.UpdateFrame | scripts/update-changelog.js:39-44 | the text before the match is kept, `## [Unreleased]` still starts there, the text after the match is kept, and the length changes accordingly |
| Changelog.HeaderThenNewline | scripts/update-changelog.js:39-44 | a header followed by a newline is replaced by the expanded version header, with the header and newline as the matched text and the rest kept after it |
| Changelog.HeaderWithoutNewline | scripts/update-changelog.js:39-41 | a header followed only by spaces and text, with no newline, is not rewritten |
| PasteCommand.Execute | src/commands/pasteImageCommand.ts:26-125 | outside Markdown, without a clipboard image, or with an unreadable one it only notifies and touches nothing; with an image and no document path it stops with that error after naming; otherwise it always delivers: the name comes from `generateFileName`, the target is the base path or the first free `-k` candidate of the path built from it, and the model client's state is the one naming left |
| PasteCommand.Deliver | src/commands/pasteImageCommand.ts:77-123 | a failed save only reports the translated error, keeping a directory it created; a rejected edit writes, deletes and reports; otherwise the file is saved, the success message names it and cleanup runs |
| PasteCommand.Reported | src/commands/pasteImageCommand.ts:108-123 | success is reported before cleanup; a failing cleanup adds the paste-failed error and a second cleanup |
| PasteCommand.SelectedText | src/commands/pasteImageCommand.ts:52-53 | the selected text exists exactly for a non-empty selection |
| PasteCommand.AltTextFollowsSelection | src/commands/pasteImageCommand.ts:89 | the alt text is the raw selection, or the file name without extension when nothing is selected |
| PasteCommand.DotSlash | src/commands/pasteImageCommand.ts:90 | the `./` prefix does not change where a relative link leads |
| PasteCommand.ReferenceLeadsToImage | src/commands/pasteImageCommand.ts:88-90 | the inserted link, resolved from the document's directory, leads to the saved image |
| PasteCommand.Edited | src/commands/pasteImageCommand.ts:93-98 | a non-empty selection is replaced; otherwise the reference is inserted at the cursor |
| PasteCommand.DeliverKeepsOtherFiles | src/commands/pasteImageCommand.ts:77-106 | every existing file other than the target keeps its content |
| PasteCommand.RollbackRestoresDisk | src/commands/pasteImageCommand.ts:99-106 | when the edit throws and the delete succeeds, the disk and the document are as before |
| PasteCommand.ReferencePlaced | src/commands/pasteImageCommand.ts:87-98 | after an applied edit the document is the text before the selection, the reference, and the text after it |
| PasteCommand.RefusedEditStillReports | src/commands/pasteImageCommand.ts:93-109 | an edit the editor declines without throwing keeps the saved file and still reports success |
| PasteCommand.CleanupFailureReportsTwice | src/commands/pasteImageCommand.ts:108-123 | a cleanup that throws after success leads to a paste-failed error and a second cleanup |

## Left out

- Process spawning, stdout streaming, timers and `kill`: a helper run is an input value (closed with an exit code and output, spawn failure, or timeout).
- `fetch`, `AbortController` and JSON decoding: the probe and the generate call are input outcomes, and the clock is a `now` parameter.
- VS Code APIs (`workspace.fs`, edits, notifications, configuration, `env.clipboard.readText`): inputs, or records of effects.
- Logging and the output channel; `getPlatformName`, which only feeds log lines.
- The e2e and unit tests, `messageService.ts`, `extension.ts` and the build scripts, which are not part of this model.
- The `MESSAGES` table: the command shows its own Chinese texts, which the model uses.
- Concurrency: races between two pastes on one destination name, and cache staleness across them.
- Strings are sequences of Unicode scalar values, while JavaScript counts UTF-16 code units; lengths differ for characters outside the Basic Multilingual Plane.
- The base class's default `cleanup`: every adapter overrides it, so it is never reached.
- `processImage`: modelled, but the command does not call it, so the command model does not either.
- Node's `path` is modelled for POSIX paths only; Windows separators, drive letters and UNC paths are not.
- FileManager.SaveImage: directory creation adds only the immediate parent directory, not every missing ancestor; dangling links and other entry kinds are not modelled; `stat` is taken to succeed exactly when the directory path is on the disk.
- `Buffer.from(…, 'base64')` is lenient, and the model approximates it: it skips characters outside the alphabet and stops at the first `=`. The URL-safe alphabet is not modelled.
- PasteCommand.Execute: the editor is assumed unchanged between the selection read and the edit.
- OllamaClient.IsAvailable: `Date.now()` is an integer parameter; the one-second probe timeout is part of the probe outcome.
- The `catch` branches around `Buffer.from` are not modelled: decoding never throws in this model.
- WslPaths.ConvertToWindowsPath: the drive segment is upper-cased for ASCII letters only, while `toUpperCase` applies Unicode's full case mapping, so a non-ASCII drive segment such as `é` (or `ß`, which grows to `SS`) is not converted as the code would.
- WslPaths.MountToDrive: the same ASCII-only upper-casing of the drive segment.
- OllamaClient.AnalyzeImage: a truthy `response` that is not a string makes `cleanFileName` throw a `TypeError`; the text of that message comes from the JavaScript engine, so such a run is given as a request failure carrying it.

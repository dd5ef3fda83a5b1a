# commy, modelled in Dafny

commy is a command-line tool that writes commit messages. Its `generate`
command works in these steps:

- It checks that the working directory is a git repository.
- It checks that something is staged.
- It lists the staged files.
- It reads the staged diff once. The diff may be truncated to a configured
  number of characters.
- It asks an AI provider for a commit message.
- It lets the user commit the message, regenerate it, or abort.

This project models that core as pure functions over explicit inputs:

- **Config** (`config.dfy`) covers three things:
  - the built-in defaults;
  - the recursive merge of the user's YAML document onto them;
  - the precedence of the `COMMY_API_KEY` environment variable over the
    configured key.

  `Config.LoadShared` models the loader's aliasing of the shared defaults
  (see Findings).
- **Git** (`git.dfy`) gives the meaning of each git command's exit status and
  output:
  - how the repository check reads `true` out of the command's output;
  - the "is anything staged" test;
  - diff truncation and its marker;
  - line splitting of the staged-file list;
  - the quote escaping applied to the commit message, and what git then
    records (see Findings);
  - the commit's boolean result.

  A command's outcome is a `Run` value: the binary was missing, or it exited
  with a status and captured text.
- **Ai** (`ai.dfy`) covers:
  - the prompt template in its two styles;
  - the choice of provider by case-insensitive name;
  - the provider's normalisation of the key (`api_key or ""`);
  - the missing-key guard;
  - the request that is posted;
  - the default style "conventional".

  The HTTP exchange is a parameter, `post: Request -> Reply`.
- **Cli** (`cli.dfy`) models the `generate` command. The inputs are:
  - the git binary, as `Shell = Command -> Run`;
  - the generator, as an oracle indexed by call number;
  - the answers the user types.

  A run is the `Trace` of events it causes and how it ends: an exit status,
  an uncaught exception, or waiting for more input. `Cli.Flow` is the
  controller over the results of the git steps (`Cli.Probe`), and
  `Cli.RunGenerate` feeds it from the shell.
- **Text** (`text.dfy`) models the Python string operations the tool relies on:
  - `strip` over Python's whitespace set;
  - `lower` on ASCII;
  - substring search.

  **Results** (`results.dfy`) holds the `Result`/`Option` types that stand for
  the source's exceptions.

Three facts about the code shape the model:

- The default provider is `"openai"`.
- `has_staged_changes` raises when the git binary is missing. Among
  failures, only a failing git command gives `False`; a successful command
  with blank output gives `False` too, which is the "nothing staged" case.
- `get_api_key` reloads the configuration itself rather than taking it as an
  argument. Reloading the same document is stable (`Config.SharedReloadStable`),
  so every step of a run sees the same configuration.

## Model

| member | source | states |
|---|---|---|
| Text.StripIsPadded | commy/git_utils.py:19 | `strip()` gives a non-blank text exactly when the input is that text with only whitespace around it |
| Text.StripEmptyIffBlank | commy/git_utils.py:33 | `strip()` is empty exactly when the output is all whitespace |
| Config.Merge | commy/config_utils.py:64-70 | the merge keeps every key of both sides; untouched base keys keep their value; overlay non-mappings replace; mappings on both sides merge key by key |
| Config.MergeEmptyOverlay | commy/config_utils.py:64-70 | an empty overlay leaves the base unchanged |
| Config.MergeSelf | commy/config_utils.py:64-70 | merging a mapping onto itself gives the mapping |
| Config.MergeIdempotent | commy/config_utils.py:64-70 | merging the same overlay a second time changes nothing |
| Config.MergeOverlayLeaf | commy/config_utils.py:64-70 | at every nested path where the overlay's value replaces the base's (the overlay holds a non-mapping, or a mapping where the base has nothing or a non-mapping), the merge holds the overlay's value |
| Config.MergeMappingOverLeaf | commy/config_utils.py:67-70 | concrete case: an overlay mapping replaces a base string wholesale rather than merging into it |
| Config.MergeUntouched | commy/config_utils.py:64-70 | every nested base value that the overlay does not reach survives unchanged |
| Config.MergeKeepsBasePaths | commy/config_utils.py:64-70 | a base path survives unless the overlay replaces one of its prefixes by a non-mapping |
| Config.MergeKeepsOverlayPaths | commy/config_utils.py:64-70 | every path of the overlay exists after the merge |
| Config.LoadConfig | commy/config_utils.py:39-61 | a non-empty mapping is merged onto the defaults; a failed read, an empty or falsy document, or a non-mapping document gives the defaults; defaults' keys are always present |
| Config.LoadConfigPointwise | commy/config_utils.py:39-61 | after loading, every path where the document replaces the default holds the document's value, and unreached leaves hold the default |
| Config.LoadKeepsAiSettings | commy/config_utils.py:12-22 | unless the document replaces `ai` by a non-mapping, the loaded `ai` section holds all five provider settings |
| Config.GetApiKey | commy/config_utils.py:73-87 | a set, non-empty environment key wins; otherwise the configured `ai.api_key`; its absence raises |
| Config.LoadShared | commy/config_utils.py:53-61 | as written: the result is the document merged onto the shared defaults (the defaults themselves for no usable document); every default mapping the document also maps is overwritten by the merged mapping, and every other default stays untouched |
| Config.SharedFirstLoad | commy/config_utils.py:53-61 | the first load from pristine defaults equals `LoadConfig` |
| Config.SharedReloadStable | commy/config_utils.py:53-61 | reloading the same document returns the same configuration and leaves the defaults as they were |
| Config.SharedDefaultsLeak | commy/config_utils.py:58-61 | after a document with an `ai` mapping is loaded, a failed read returns that document's `ai` section instead of the built-in one |
| Config.SharedDefaultsLeakExample | commy/config_utils.py:12-22 | concrete case: `model: gpt-4` stays in effect after a failed read, where the defaults say `gpt-3.5-turbo` |
| Git.IsGitRepositoryIffPaddedTrue | commy/git_utils.py:10-21 | inside a repository exactly when the command exits with status 0 and prints `true` with only whitespace around it; a missing binary means "not a repository" |
| Git.HasStagedChanges | commy/git_utils.py:24-35 | a missing binary raises; a failing command means no changes; otherwise there are changes exactly when the output is not all whitespace |
| Git.Truncate | commy/git_utils.py:55-58 | truncation happens exactly when a non-zero limit is exceeded; the result is the first `limit` characters plus the marker; otherwise the diff is unchanged |
| Git.GetStagedDiff | commy/git_utils.py:38-62 | a failing command raises with its error text; success yields the possibly truncated diff and the truncation flag |
| Git.NonEmptyLines | commy/git_utils.py:74 | every file name kept is non-empty and contains no line break |
| Git.NonEmptyLinesKeepText | commy/git_utils.py:74 | the names, read in order, spell the output without its line breaks: nothing is lost or reordered |
| Git.NonEmptyLinesOfLine | commy/git_utils.py:74 | one break-free line, even one of spaces only, is kept whole |
| Git.NonEmptyLinesSplit | commy/git_utils.py:74 | every line break separates names: the names of `a + break + b` are those of `a` followed by those of `b`; with `NonEmptyLinesOfLine` this fixes every split point |
| Git.GetStagedFiles | commy/git_utils.py:65-76 | a failing command raises with its error text; success yields the output's non-empty lines, split at every line break (through `NonEmptyLines`), which spell the output without its breaks |
| Git.EscapeQuotes | commy/git_utils.py:91 | escaping adds exactly one character per double quote |
| Git.UnescapeEscape | commy/git_utils.py:91 | removing the inserted backslashes gives back the original message |
| Git.EscapedQuotesArePrefixed | commy/git_utils.py:91 | every double quote of the escaped message has a backslash right before it, as a shell command line would need |
| Git.EscapedCommitArgv | commy/git_utils.py:91-94 | as written, and the argv the model runs for a commit: `git commit -m` and the escaped message; unescaping the recorded text gives the message back |
| Git.EscapedCommitAltersQuotes | commy/git_utils.py:91-98 | as written: no shell undoes the escaping, so committing a message with a double quote records it changed, one backslash longer per quote |
| Git.EscapedCommitExample | commy/git_utils.py:91-98 | concrete case: committing the message `"x"` records `\"x\"` |
| Git.CommitArgv | commy/git_utils.py:93-98 | corrected, not used by the program model: git records the message that was shown (up to its whitespace cleanup), and this argv differs from the one the program runs whenever the message has a double quote |
| Git.CommitChanges | commy/git_utils.py:79-102 | status 0 gives `True`, a failing commit gives `False`, a missing binary raises |
| Ai.CreateCommitPrompt | commy/ai_utils.py:14-40 | the prompt is the fixed request, then the diff verbatim, then a blank line and the style's instructions |
| Ai.PromptRoundTrip | commy/ai_utils.py:14-40 | for a fixed style the diff can be read back out of the prompt |
| Ai.PromptInjective | commy/ai_utils.py:14-40 | different diffs give different prompts |
| Ai.PromptEmbedsDiff | commy/ai_utils.py:26 | every prompt contains its diff |
| Ai.JoinContains | commy/ai_utils.py:31 | each item of the comma-separated list occurs in the list's text |
| Ai.ConventionalPromptNamesTypes | commy/ai_utils.py:28-34 | the conventional prompt names each of the eight commit types |
| Ai.ConventionalPromptEndsWithAsk | commy/ai_utils.py:28-34 | the conventional prompt ends with `Commit message:` |
| Ai.OtherStylesArePlain | commy/ai_utils.py:35-38 | any style other than exactly `"conventional"` gets the plain instructions, including `"Conventional"` |
| Ai.NewOpenAI | commy/ai_utils.py:55-66 | a falsy key becomes `""`, a truthy key is kept; the other settings pass through; the endpoint is fixed |
| Ai.ProviderGenerate | commy/ai_utils.py:68-108 | with no key, fails with the missing-key message and posts nothing; otherwise posts the prompt as the one user message with the key as bearer; a failed request becomes `Error calling OpenAI API: …`; a reply is stripped |
| Ai.GetAiProvider | commy/ai_utils.py:111-130 | a key-lookup failure propagates; success needs a string provider name that lower-cases to `openai`; the provider gets the normalised key and the fixed endpoint |
| Ai.ProviderByName | commy/ai_utils.py:111-130 | for a well-shaped config, any capitalisation of `openai` selects the provider with the configured settings; any other name raises `Unsupported AI provider: <name>` |
| Ai.CommitStyle | commy/ai_utils.py:144 | an unset style means `conventional` |
| Ai.LoadedStyle | commy/ai_utils.py:143-144 | after loading, the style is the document's `commit_style` when it sets one, and `conventional` otherwise |
| Ai.GenerateCommitMessage | commy/ai_utils.py:133-151 | a provider error propagates; otherwise the result is the provider's answer for the prompt in the configured style |
| Ai.DefaultsWellShaped | commy/config_utils.py:12-22 | the built-in `ai` section has all five settings, provider `openai`, and an empty key |
| Ai.MissingKeyFails | commy/ai_utils.py:81-85 | a provider with a falsy key fails with the missing-key error, whatever the diff and endpoint |
| Ai.DefaultsNeedAKey | commy/ai_utils.py:81-85 | with the built-in defaults and no environment key, generation fails with the missing-key error |
| Ai.EnvironmentKeyIsSent | commy/ai_utils.py:87-97 | an environment key reaches the endpoint as the bearer credential, and the posted message holds the diff |
| Cli.ClassifyIgnoresCase | commy/main.py:96-99 | an answer selects the same action whatever its case |
| Cli.ReviewStaysOnDiff | commy/main.py:95-128 | the review loop runs no git command other than the commit, and regenerates only for the diff it was given |
| Cli.ReviewCommitsShown | commy/main.py:101-107 | the loop commits at most once, as its last step, and `commit_changes` is called with the message on display (git records it with its quotes escaped, see Findings) |
| Cli.ReviewFailsOnGenerator | commy/main.py:108-121 | the loop exits with status 1 only after a failed regeneration, with no commit |
| Cli.RegenerateThenFail | commy/main.py:108-121 | `k` successful regenerations followed by a failing one exit with status 1 after `k + 1` generations and no commit |
| Cli.CommitOnlyAfterYes | commy/main.py:95-128 | the loop commits only if one of the answers is yes |
| Cli.InvalidChoiceIsIgnored | commy/main.py:127-128 | an unrecognised answer changes nothing; the prompt is asked again |
| Cli.RegenerateThenAccept | commy/main.py:101-121 | `k` successful regenerations and then yes give `k` generations and then one commit of the last message |
| Cli.AbortCommitsNothing | commy/main.py:122-126 | no, after any number of invalid answers, ends with status 0 and no events |
| Cli.OpeningFacts | commy/main.py:66-83 | after the checks: one diff read, an optional truncation warning, then one generation about the diff |
| Cli.NotARepository | commy/main.py:43-48 | outside a repository the run exits with status 1 after the first check alone |
| Cli.NothingStaged | commy/main.py:50-55 | with nothing staged the run exits with status 0 after two checks |
| Cli.ShellReachesDiff | commy/main.py:43-58 | a shell that passes both checks reaches the diff read |
| Cli.DiffReadFailure | commy/main.py:65-78 | a failing diff read exits with status 1 right after the checks, with no generation and no commit |
| Cli.FirstGenerationFailure | commy/main.py:80-88 | a failing first generation exits with status 1 with no commit |
| Cli.ReadAndGenerateShape | commy/main.py:65-128 | after the read there is no second read, at most one commit, and every generation is about the diff that was read |
| Cli.StopsAtChecks | commy/main.py:43-59 | a run that stops at the checks reads no diff, generates nothing and commits nothing |
| Cli.RunShape | commy/main.py:35-128 | every run: at most one diff read and one commit; generations only after the checks and the read, all about the diff read |
| Cli.CommitNeedsYes | commy/main.py:96-107 | a run commits only if one of the typed answers is classified as yes (the empty answer counts, as the prompt's default) |
| Cli.RegenerateKThenAccept | commy/main.py:80-121 | `k` regenerate answers and then yes, all generations succeeding, give `k + 1` generations and one commit of the last message |

## Left out

- Running processes, files, HTTP and the clock are parameters:
  - git's results arrive as `Run` values, through `Cli.Shell`;
  - the YAML read and parse arrives as `Config.Parsed`;
  - the HTTP reply arrives as `Ai.Reply`;
  - the generator arrives as `Cli.Oracle`.
- The request timeout is not modelled.
- The shape of the endpoint's JSON reply is not modelled. A missing `choices`
  field raises a lookup error in the source; here every reply is either a
  completion or a failure.
- `get_config_path` and `create_default_config` write a file and print a
  notice. Only the effect of a later read is modelled.
- All Rich console output is left out: messages, panels, the status spinner,
  and the `--verbose` diff panel. The trace keeps only the truncation warning.
- The typer callback, the application object and `main()` are left out. They
  contain no logic.
- YAML mapping keys other than strings are not modelled. Floats are opaque
  leaves.
- `str.lower` is modelled on ASCII letters only. Unicode case mapping is not
  modelled; none of the words compared contains a letter that Unicode maps to
  ASCII.
- Git.Truncate: the limit is an optional natural number. The conversion of
  `diff_truncation_limit` is not modelled:
  - a negative or non-integer configured value (Python slices from the end,
    or raises when comparing);
  - reading the value from the configuration loaded in `generate`.
- Ai.GetAiProvider: a non-string `ai.provider` is reported as a configuration
  error. The source raises an attribute error there. Both end the run.
- NonEmptyLinesKeepText: on its own says only that no text is lost or
  reordered. Where the names are split is stated by `Git.NonEmptyLinesSplit`
  together with `Git.NonEmptyLinesOfLine`.
- NonEmptyLines: its contract does not fix the split points either; the
  same two lemmas do, and `Git.GetStagedFiles` states its result through it.
- Git.GetStagedDiff, Git.GetStagedFiles: git output that is not valid text
  in the locale's encoding raises a decode error, which `generate` turns into
  exit status 1. `Run` holds text that is already decoded, so this case is not
  modelled.
- Cli.Flow: Rich parses printed text as markup, and that is not modelled.
  The file names (main.py:59), the diff panel under `--verbose` (main.py:69),
  the message panels (main.py:92 and :116) and the printed error texts are
  all parsed this way. Text with an unmatched closing tag such as `[/api]`
  makes Rich raise a markup error. At main.py:59 and :92 that crashes the run
  before the review. At main.py:69 and :116 the error is caught: a diff read
  or a regeneration that succeeded still ends with exit status 1. The model
  treats rendering as never failing, so `Cli.Review` and
  `Cli.RegenerateThenAccept` continue the loop there.
- Cli.Flow: an interrupt at the prompt (Ctrl-C or end of input) is not
  modelled.
- Cli.Flow: the configuration is loaded fresh at every step. The model uses
  one configuration for the run, as `Config.SharedReloadStable` justifies
  for an unchanged file.

## Findings

| source | as written | input that shows it | evidently intended | confidence | as-written member | corrected member |
|---|---|---|---|---|---|---|
| commy/config_utils.py:53-61 | `DEFAULT_CONFIG.copy()` is shallow, so `_merge_dicts` writes into the nested `ai` mapping of the module-level defaults. The fallback then returns those altered defaults | load a file containing `ai: {model: gpt-4}`, then fail a later read in the same process: the fallback reports model `gpt-4` instead of `gpt-3.5-turbo` | every load starts from pristine defaults (a deep copy), and a failed read gives the built-in configuration | not executed | Config.SharedDefaultsLeakExample | Config.LoadConfig |
| commy/git_utils.py:91-98 | the message's double quotes are escaped with backslashes as a shell command line would need, but the command is an argument list run without a shell, so git records the backslashes | commit the message `"x"`: the commit records `\"x\"` | the message is passed unchanged | not executed | Git.EscapedCommitAltersQuotes | Git.CommitArgv |

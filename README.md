# Configurator — a verified model of its value-resolution core

Configurator fills in a configuration template (`app.config`, `web.config`,
`appsettings.json`) with values for one deployment environment. Next to each
template live value files such as `dev.app.config` or `prod.web.config`,
whose lines are `key=value`. A run picks the value files nearest to the
template in the directory tree and keeps those that belong to the requested
environment. In the default hierarchical mode it keeps at most one file per tier, from
that environment down to `prod`. It loads each file into a mapping and merges
the mappings so that the more specific environment wins. Finally it replaces
every `%%key%%` and `%key%` in the template by the key's value.

The model is in Dafny, one module per part of the program:

- `Strings`: the parts of Python 2's `str` that the program relies on. These
  are ASCII `lower`, `strip`, `find`, `count`, `split`, `startswith` and
  `endswith`, plus `os.path.basename`.
- `Classify`: how files are told apart as templates, templates without
  variables, and value files.
- `ValueFiles`: the `TemplateValueMapping` class, loading one value file,
  and merging the mappings with diagnostics for redundant values.
- `Paths`: the distance between two paths, and the choice of the nearest
  value files.
- `Environments`: choosing the files of one environment, or the chain of
  environments in hierarchical mode.
- `Substitution`: the replacement loop of `populateTemplate`.
- `Configurator`: the non-interactive end of `run`, which chains all of the
  above.

Code that changes state is modelled as methods, and each method is proved
equal to a specification function. These are:

- the mapping class (`ValueMapping`, with `modifies` on `Set`);
- the loading and merging loops;
- the token-comparison loop of the distance;
- the nearest-file loop;
- the tier loop;
- the search-and-splice loop of the substitution.

The properties the program relies on are lemmas about those functions.

## Model

| member | source | states |
|---|---|---|
| Strings.Strip | configurator.py:127 | The stripped line is empty exactly when the line is all whitespace. Otherwise it neither starts nor ends with whitespace. |
| Strings.StripIsInfix | configurator.py:127 | The stripped line is a contiguous part of the line with only whitespace before and after it, so only the ends are removed. |
| Strings.CountAtLeastTwo | configurator.py:82 | A text holds at least two of a character iff it has two distinct positions holding it. |
| Strings.Find | configurator.py:108 | The result is -1 or the first position at or after the start where the pattern occurs; -1 means there is no occurrence from the start on. |
| Strings.FindInSuffix | configurator.py:108 | Searching from `start` finds the same occurrence as searching the suffix from 0, shifted by `start`. |
| Strings.SplitOn | configurator.py:158-159 | Splitting gives one more piece than the number of separators, and no piece holds the separator. |
| Strings.SplitJoinWith | configurator.py:158-159 | Joining the pieces of a split with another character is the text with the separator replaced by that character. |
| Strings.SplitJoin | configurator.py:158-159 | Joining the pieces of a split with the same separator gives back the text. |
| Strings.BaseNameIsLastComponent | configurator.py:124 | The base name holds no '/', ends the path, and is preceded by '/' when it is not the whole path. |
| Strings.BaseNameOfLower | configurator.py:87 | Lower-casing before or after taking the base name gives the same name. |
| Classify.ContainsTemplateVariables | configurator.py:79-84 | True iff the content has two distinct positions holding '%'. |
| Classify.IsTemplateFile | configurator.py:86-91 | NONE iff the lower-cased base name is not a template pattern. TEMPLATE iff it is one and the content has two '%'. NO_VARIABLES otherwise. |
| Classify.HasValueSuffix | configurator.py:93-98 | True iff the name ends with '.' followed by one of the patterns. |
| Classify.IsValueFile | configurator.py:93-98 | True iff the lower-cased base name ends with '.' plus a template pattern. |
| Classify.PatternsAreNotValueNames | configurator.py:47 | No template pattern ends with '.' plus a template pattern. |
| Classify.TemplateIsNotValueFile | configurator.py:86-98 | A file recognised as a template is never a value file. |
| Classify.ValueFileExample | configurator.py:93-98 | `Prod.App.Config`, in mixed case, is a value file. |
| Classify.TemplateExample | configurator.py:86-91 | `App.config` holding `%%Port%%` is a template with variables. |
| Classify.NoVariablesExample | configurator.py:86-91 | `Web.config` with a single '%' is a template without variables. |
| ValueFiles.PutLookup | configurator.py:64-65 | After assigning a key, that key maps to the new value. Every other key keeps its presence and its value, and the title is kept. |
| ValueFiles.PutWellFormed | configurator.py:64-65 | Assigning a key keeps every key visited exactly once: a new key joins the end of the order, and an existing one keeps its place. |
| ValueFiles.ValueMapping.constructor | configurator.py:57-59 | A new mapping is empty and titled "Untitled Mapping". |
| ValueFiles.ValueMapping.Set | configurator.py:64-65 | Item assignment changes the mapping's value exactly as `Put` does. |
| ValueFiles.SplitLine | configurator.py:130-132 | With an '=', the key is the text before the first '=', the value the text after it, and they rejoin to the line. With no '=', the key is the line minus its last character and the value is the whole line. |
| ValueFiles.ParseWellFormed | configurator.py:122-134 | A loaded file is a well-formed mapping titled with the file's base name. |
| ValueFiles.ParseHasKey | configurator.py:126-134 | A key is in the loaded mapping iff some non-blank line assigns it. |
| ValueFiles.ParseLastWins | configurator.py:126-134 | The value of a key is the one from the last line that assigns it. |
| ValueFiles.LoadValueFile | configurator.py:122-134 | The loop over the lines builds a fresh, valid mapping equal to the parse of the lines. |
| ValueFiles.SplitAtFirstEquals | configurator.py:130-132 | `A=B=C` splits into key `A` and value `B=C`. |
| ValueFiles.SplitWithoutEquals | configurator.py:130-132 | A line with no '=' gives key `ab` and value `abc` for `abc`. |
| ValueFiles.AbsorbLookup | configurator.py:144-147 | Absorbing one mapping adds exactly its missing keys with their values. Keys already present keep their earlier value, and the title is unchanged. |
| ValueFiles.AbsorbRedundancyIff | configurator.py:144-149 | Absorbing a mapping reports a key iff it was already present with the same value, with the previous mapping's title. |
| ValueFiles.MergedWellFormed | configurator.py:136-153 | Merging the first n of a list of well-formed mappings gives a well-formed mapping. |
| ValueFiles.MergedTitle | configurator.py:143 | The title of the merge of the first n mappings joins their titles with " -> ", in order. |
| ValueFiles.LookupStep | configurator.py:144-147 | Merging one more mapping: a key is present afterwards iff it was already merged or that mapping has it. A key already merged keeps its value; a new one takes that mapping's value. |
| ValueFiles.MergedKeys | configurator.py:144-147 | The merge of the first n mappings holds exactly the keys of those mappings. |
| ValueFiles.MergedFirstWins | configurator.py:142-147 | A key takes its value from the first of the merged mappings that has it. |
| ValueFiles.RecordedStep | configurator.py:144-150 | Merging one more mapping adds exactly the diagnostics for the keys it repeats with the value already merged. |
| ValueFiles.RedundanciesIff | configurator.py:141-150 | Merging the first n mappings reports a diagnostic iff one of them, after the first, repeats a key with the value already merged. The diagnostic names the title of the mapping just before it. |
| ValueFiles.MergeEqualPair | configurator.py:146-149 | Merging {K:V} with {K:V} gives {K:V} and exactly one redundancy diagnostic. |
| ValueFiles.MergeDifferingPair | configurator.py:146-149 | Merging {K:V1} with {K:V2}, where V1 differs from V2, gives {K:V1} and no diagnostic. |
| ValueFiles.AbsorbMapping | configurator.py:143-149 | One pass of the outer loop appends " -> " and the next title to the result's title. It then leaves the result equal to the absorption of the next mapping's keys in its order, and returns that pass's diagnostics. |
| ValueFiles.MergeValueMappings | configurator.py:136-153 | No mappings give nothing. Otherwise the first mapping object is returned, now holding the merge of all, together with the full list of diagnostics. |
| Paths.TokensJoin | configurator.py:158-159 | No token holds a '/' or '\\', and joining the tokens with '/' gives the path with every '\\' turned into '/'. |
| Paths.CommonPrefix | configurator.py:160-164 | The loop stops at the first index where the lists differ, ignoring case, or where one list ends. |
| Paths.CommonPrefixUnique | configurator.py:160-164 | Any index with that stopping property is the common prefix length. |
| Paths.DistanceBetweenPaths | configurator.py:155-165 | The loop returns the tokens of both paths left after their common prefix. |
| Paths.DistanceProperties | configurator.py:155-165 | The distance is non-negative and symmetric. It is zero iff the paths have the same tokens up to case. |
| Paths.DistanceToSelf | configurator.py:155-165 | A path is at distance zero from itself. |
| Paths.DistanceTriangle | configurator.py:155-165 | The distance obeys the triangle inequality. |
| Paths.MinDistance | configurator.py:243-251 | The minimum is at most 1000 and at most the distance of every option. |
| Paths.MinDistanceAttained | configurator.py:243-251 | The minimum is either 1000 or the distance of some option. |
| Paths.AtDistance | configurator.py:243-251 | Keeps exactly the options at the given distance. Their order is kept by the definition, a filter, not by the contract. |
| Paths.NearestStep | configurator.py:245-251 | One more option: a strictly closer one restarts the list with just that option. An equally close one is appended, and a farther one changes nothing. |
| Paths.NearestValueFiles | configurator.py:243-251 | The loop returns the options at the least distance, provided that distance is at most 1000. |
| Paths.ClosestByKey | configurator.py:243-251 | For any ranking of the options, no option ranks before a chosen one. Nothing is chosen iff every option ranks beyond 1000. |
| Paths.NearestAreClosest | configurator.py:243-251 | No option is closer than a chosen one. Nothing is chosen iff every option is farther than 1000. |
| Environments.Matching | configurator.py:254 | Keeps exactly the files whose base name starts with the environment's name. |
| Environments.MatchingAtLeastTwo | configurator.py:254-260 | Two or more files match iff two distinct positions hold matching files. |
| Environments.MatchingEmpty | configurator.py:254-257 | No file matches iff every file is outside the environment. |
| Environments.SelectSingle | configurator.py:253-261 | "No value file" iff no file matches. "Multiple matching" iff two files match. Exactly one match gives success, with that one file. |
| Environments.ChainSuccess | configurator.py:262-271 | The chain succeeds iff no tier has more than one match. It then holds at most one file per tier, and a file is in it iff it belongs to some tier. |
| Environments.ChainFailure | configurator.py:266-268 | A failing chain reports the first tier with several matches, together with those matches. |
| Environments.ChainOfThree | configurator.py:264-271 | With at most one match in each of three tiers, the chain is the matches of the tiers in tier order. |
| Environments.EmptyTiers | configurator.py:264-271 | When no file belongs to any tier of the chain, the chain succeeds with no files. |
| Environments.IndexOf | configurator.py:264 | Returns the first position of the environment in the list. |
| Environments.SelectHierarchical | configurator.py:262-271 | The tier loop computes the chain from the requested environment to the end of the list. |
| Environments.SelectionWithin | configurator.py:253-271 | Single mode picks exactly one file. Any successful choice has at most three files, all from the candidates. |
| Environments.SelectValueFiles | configurator.py:253-271 | Computes the selection: single mode when asked for or when the environment is not a known tier, the tier chain otherwise. |
| Environments.TierStarts | configurator.py:48 | dev, qa and prod sit at positions 0, 1 and 2 of the tier list. |
| Environments.HierarchyExample | configurator.py:262-271 | With one dev, one qa and one prod file, asking for dev gives all three in that order. |
| Environments.SingleExample | configurator.py:253-261 | With the same files, asking for qa in single mode gives only the qa file. |
| Environments.EmptyChainAccepted | configurator.py:262-271 | In hierarchical mode, when no file belongs to the requested tier or a later one, the choice succeeds with no files. |
| Environments.EmptyChainExample | configurator.py:262-271 | Asking for prod with only `qa.app.config` nearby succeeds with an empty list. |
| Environments.SelectionChecked | configurator.py:255-257 | A successful choice is never empty. An empty choice is reported as a missing environment. Any other outcome of the program's selection, a non-empty choice or an ambiguity, is passed through unchanged. |
| Environments.SelectionCheckedMissing | configurator.py:255-257 | When no file belongs to the environment or its later tiers, the checked choice fails with "no value file", in both modes. |
| Substitution.SubstituteAll | configurator.py:106-117 | The search-and-splice loop replaces every non-overlapping occurrence, left to right, and never searches inserted text again. |
| Substitution.ResumeDone | configurator.py:108-110 | When `find` reports no occurrence after the cursor, the text is final. |
| Substitution.ReplaceSkip | configurator.py:108 | The scan copies unchanged every position before the first occurrence at or after the cursor. |
| Substitution.FirstReplacement | configurator.py:108-116 | The occurrence `find` reports is the first one the left-to-right scan replaces. |
| Substitution.SpliceResume | configurator.py:114-117 | Splicing the value in at that occurrence and resuming after the value gives the same final text. |
| Substitution.ResumeStep | configurator.py:108-117 | One splice at the occurrence `find` reports, then resuming just past the inserted value, keeps the final result the same. |
| Substitution.ReplaceAllIdentity | configurator.py:106-117 | Replacing a variable by itself changes nothing. |
| Substitution.ReplaceWhole | configurator.py:106-117 | A text that is exactly the variable becomes exactly the value, whatever the value holds. |
| Substitution.DoubleFormFirst | configurator.py:104 | Because `%%key%%` is replaced before `%key%`, the double form becomes the bare value, when the value holds no `%key%`. |
| Substitution.DoubleFormRescanned | configurator.py:104-117 | The `%key%` pass rescans the value the `%%key%%` pass put in: `%%K%%` with the value `a%K%` becomes `aa%K%`. |
| Substitution.SubstituteKeyNotIdempotent | configurator.py:104-117 | Substituting a key twice can change the text again with an empty value: `%%K%K%` becomes `%K%`, which becomes the empty text. |
| Substitution.SingleFormFirstDiffers | configurator.py:104 | Replacing `%key%` first would instead leave '%' on each side of the value. |
| Substitution.NoFormWithoutTwoPercents | configurator.py:104 | Text with fewer than two '%' holds neither form of any key. |
| Substitution.PopulatedOrderMatters | configurator.py:103-117 | With `A` mapped to `%B%` and `B` to `x`, `%A%` becomes `x` when `A` goes first and `%B%` when `B` goes first. |
| Substitution.PopulatedWithoutVariables | configurator.py:103-117 | Text with fewer than two '%' is left unchanged by substitution. |
| Substitution.PopulateTemplate | configurator.py:100-120 | Every key is substituted in the mapping's order, double form first. The result is written back unless this is a dry run. |
| Configurator.LoadedAt | configurator.py:273-276 | The mapping loaded for each chosen file is the one parsed from its lines under its base name. |
| Configurator.LoadedWellFormed | configurator.py:273-276 | Every loaded mapping is well formed. |
| Configurator.LoadValueFiles | configurator.py:273-276 | The loop loads each chosen file into a fresh, distinct mapping object, in order. |
| Configurator.ApplyValueFiles | configurator.py:273-279 | Loading, merging and populating give the template filled from the merge of the chosen files, and return the merge's redundancy diagnostics. |
| Configurator.Configure | configurator.py:242-279 | The run gives the template filled from the nearest files of the environment, or the selection error. Content is written only on success outside a dry run. The merge's diagnostics are returned, and none on failure. |
| Configurator.SingleFileNoDiagnostics | configurator.py:136-153 | In single-environment mode, or for an environment outside the hierarchy, the run reports no redundancy: one file has nothing to repeat. |

## Left out

- The command line (`argparse`) is not modelled. Its options arrive as parameters: the environment name, single-environment mode and dry run.
- The directory walk and its ignored directories are not modelled. The candidate value files and the template path are inputs.
- The interactive mode is not modelled: choosing the template and typing in the value-file indices need a person at the keyboard.
- Reading and writing files is not modelled. Template text and value-file lines are inputs, and what would be written comes back as `written`.
- Printed output is not modelled: progress messages, the replacement report with line numbers, and the redundancy text. The redundancy diagnostics come back as `Redundancy` values from the merge and from the whole run, whether verbose mode is on or off.
- Exit codes are not modelled. The choice of files fails with a `SelectionError` instead.
- `os.path.realpath` is not modelled, because it depends on the file system. Paths are taken as already resolved. The program measures distance on the resolved path but matches base names and titles mappings with the unresolved one; the model uses one string for both, so a symlinked value file whose link name and target name differ is not captured.
- `os.path.basename` is the POSIX one, which splits on '/' only. The Windows variant is not modelled.
- Dictionary order is modelled as insertion order. Python 2 iterates a dict in hash order, which the model cannot reproduce. The order matters when one key's placeholder text overlaps another's, and also when a value contains another key's placeholder, because a later key's pass rescans what an earlier key put in. Within one key the `%key%` pass likewise rescans what the `%%key%%` pass put in.
- `str.lower` and `str.strip` are modelled for ASCII only, as Python 2 byte strings behave. Unicode is not modelled.
- ValueFiles.MergeValueMappings: requires every later mapping to be a different object from the first. The program always loads a fresh object per file; merging a mapping into itself is not modelled.
- Substitution.SingleFormFirstDiffers: shown only for keys that are non-empty and do not start with '%'. For other keys the two orders can coincide.
- Configurator.ApplyValueFiles: requires a non-empty selection. The empty list that hierarchical mode can pass makes the program crash in `populateTemplate`; that path is the Findings row below, and `Configure` never calls this method with it.
- Configurator.Configure: follows the corrected behaviour of the Findings row below for an empty hierarchical chain, so the program's crash on that path is not part of it.

## Findings

| source | as written | input that shows it | evidently intended | confidence | as-written member | corrected member |
|---|---|---|---|---|---|---|
| configurator.py:262-279 | Hierarchical mode accepts an empty chain of files. `mergeValueMappings([])` then returns a plain `{}`, and `populateTemplate` fails reading its `title`. | `-e prod` with only `qa.app.config` next to the template | Report "No value file for environment" and stop, as single-environment mode does | medium; not executed | Environments.EmptyChainExample | Environments.SelectionCheckedMissing |

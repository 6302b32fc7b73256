# baby — a Dafny model of its rule store, import, export and command runner

`baby` is a command-line tool that keeps named shell commands ("rules") in a
plain-text configuration file, one rule per line: `name = command`. This
project models the logic of `main.go` that works on that file and on the
texts it exchanges:

- **Rule store** (`store.dfy`, `lines.dfy`). The file is a `File`: `Missing`, or
  `Present(text)`. `ReadLines` cuts the text into lines the way `bufio.Scanner`
  does. `WriteLinesAsWritten` is writeLines as the program has it: it truncates
  the file, then unquotes every line and writes it followed by a newline.
  - `CreateRule`, `UpdateRule` and `DeleteRule` find the first line that starts
    with `name + " = "`. They then replace it in place, append a rule, or splice
    that line out, and rewrite the file.
  - `DeleteAllRules` truncates the file.
  - `GetCommand`, `RuleExists` and `ShowRule` look up that same first line.
  - `ListRules` and `GetAllRules` cut every line at its first `=`.
- **Placeholders** (`bottles.dfy`). `processBottles` fills each
  `b%('label')%b` placeholder, left to right, with the next answer the user
  gives. The pattern is written out as a scanner.
- **Extraction** (`extract.dfy`). `extractRules` finds every leftmost,
  non-overlapping match of `b:([^=]+) = (.*?):b` and formats it as
  `name = command`. This pattern is also a scanner.
- **Export** (`export.dfy`). The rule-picking loop, the optional `#comment`
  line, and one `b:name = command:b` line per picked rule.
- **Import** (`import.dfy`). The merge loop that `importRulesFromFile` and
  `importRulesFromURL` share:
  - the set of existing names is computed once;
  - each extracted rule is cut with `strings.Split` at every `" = "`, and
    skipped unless that gives exactly two parts;
  - a name already in that set is updated after a "y";
  - any other name goes through `createRule`, which may ask its own question.
- **Runner** (`runner.dfy`). `runCommands` resolves the names, skips those that
  do not resolve, fills in placeholders, and joins the commands with `" && "`.

How the model replaces the program's outside world:

- Every prompt (`fmt.Scanln`, or a line read from standard input) reads the
  next element of an answer sequence. Once the answers run out, a prompt reads
  `""`.
- `strconv.Unquote` is the parameter `unquote` (None is an error).
  `html.UnescapeString` is the parameter `unescape`.
- The imported file is a `File`. The HTTP response body is an `Option<string>`:
  None when the request fails or does not answer 200.
- `runCommands` returns the command line it would hand to `bash -c`.

Loops in the source become methods with loops (`CreateRule`, `UpdateRule`,
`DeleteRule`, `ListRules`, `GetAllRules`, `ExtractRules`, `CheckWords`,
`SelectRules`, `BuildExport`, `CollectExisting`, `ImportText`, `ImportFromFile`,
`RunCommands`). Each is proved equal to a specification function, and the
lemmas state the program's behaviour about those functions. The program has
no objects: the configuration file is global state. So every operation takes
the file and returns the new file, with the outcome it reports.

The operations follow `main.go` as written, including its two defects (see
"## Findings"). A rewrite that meets a line that does not unquote empties the
store, and an imported rule whose command holds `" = "` is skipped. For each
defect the model also gives a corrected definition and proves where the two
agree:
- `WriteLines` unquotes every line before it touches the file. A failed
  rewrite then leaves the store as it was, instead of destroying every rule
  because one line holds a bad escape. `WriteAgrees` shows that it writes
  what the program writes whenever every line unquotes.
- `ParseImported`, `MergeStep` and `Merge` split a rule at its first `" = "`.
  `MergeAgrees` shows that they merge as the program does whenever both
  splits read every rule alike.

The model also follows the code where `createRule` fails on a missing file.

## Model

| member | source | states |
|---|---|---|
| Lines.SplitLines | main.go:663-667 | no line `bufio.Scanner` yields holds a newline |
| Lines.ReadLines | main.go:656-669 | readLines fails exactly when the file cannot be opened |
| Lines.UnquoteAll | main.go:679-685 | on success there is one unquoted line per line, each the unquoting of its own line; it fails only when some line does not unquote |
| Lines.SplitJoinLines | main.go:656-692 | lines without newline or trailing carriage return, written one per `Fprintln` and scanned again, come back the same |
| Lines.WriteLines | main.go:671-692 | corrected writeLines: it succeeds exactly when every line unquotes, and then writes the unquoted lines, each followed by a newline; on failure the file is left exactly as it was |
| Lines.WriteLinesAsWritten | main.go:671-692 | writeLines as written: it succeeds exactly when every line unquotes, and then writes the unquoted lines, each followed by a newline; the file exists afterwards whatever happens, and a failure leaves it empty, since os.Create truncates it first |
| Lines.WriteAgrees | main.go:671-692 | when every line unquotes, the program's write and the corrected one write the same file and both succeed |
| Lines.WriteReadBack | main.go:671-692 | when unquoting returns plain lines unchanged, lines without `\`, `"` or a trailing carriage return are written successfully, and reading the file back gives the same lines |
| Lines.FailedWriteEmptiesStore | main.go:672-685 | a line that does not unquote leaves the store empty as written, but unchanged with the corrected write |
| Text.SplitFirst | main.go:135 | `strings.SplitN(s, sep, 2)`: the two parts rebuild `s` around a `sep` that no earlier position of `s` starts, so the cut is at the first `sep`; no split exactly when `s` holds no `sep` |
| Text.Split | main.go:377 | `strings.Split` gives at least one part, and the parts joined with `sep` rebuild the text |
| Text.TrimSpace | main.go:139 | the result has no white space at either end, keeps only characters of the input, and a trimmed text is returned unchanged |
| Text.TrimSpaceCut | main.go:139 | the input is white space, then the result, then white space: exactly the white space at both ends is cut off |
| Text.Fields | main.go:493 | every word `strings.Fields` returns is a non-empty run of non-space characters |
| RuleStore.FirstRule | main.go:162-175 | the index found starts with `name + " = "` and no line before it does; nothing is found exactly when no line does |
| RuleStore.Commit | main.go:671-692 | a rewrite reports success exactly when every line unquotes, and then writes the unquoted lines; otherwise it reports the write failure and leaves an empty file |
| RuleStore.CreateRule | main.go:154-188 | the loop's effect and unread answers are those of CreateEffect: one question only when a rule line exists, the first such line replaced on "y", the rule appended otherwise; a missing file fails to open, any answer but "y" cancels, and a line that does not unquote empties the store |
| RuleStore.UpdateRule | main.go:235-262 | the loop's effect is UpdateEffect: the first rule line replaced and the file rewritten (emptied when a line does not unquote), or not-found or open failure with the file untouched |
| RuleStore.DeleteRule | main.go:190-217 | the loop's effect is DeleteEffect: the first rule line spliced out and the file rewritten (emptied when a line does not unquote), or not-found or open failure with the file untouched |
| RuleStore.DeleteAllRules | main.go:219-233 | succeeds exactly when the file exists, and the file then holds no lines; a missing file fails to open and is not created |
| RuleStore.GetCommand | main.go:315-335 | getCommand fails to open exactly when the file is missing, and reports not-found exactly when the file exists and no line starts with `name + " = "` |
| RuleStore.GetCommandFinds | main.go:323-327 | a command getCommand finds is the trimmed text after `name + " = "` on the first line that starts with that prefix |
| RuleStore.RuleExists | main.go:567-583 | ruleExists holds exactly when the file exists and some line starts with `name + " = "` |
| RuleStore.ShowRule | main.go:264-286 | showRule fails to open exactly when the file is missing, and reports not-found exactly when the file exists and no line starts with `name + " = "` |
| RuleStore.ShowRuleFinds | main.go:272-276 | the line showRule prints is the first line that starts with `name + " = "` |
| RuleStore.LookupAgrees | main.go:315-334 | getCommand finds a command exactly when ruleExists holds; it reports not-found exactly when the file exists without such a line, and an open failure exactly when the file is missing |
| RuleStore.ShowAgreesWithGet | main.go:264-286 | showRule finds a line exactly when getCommand does; the line starts with `name + " = "`, and getCommand returns what follows that prefix, trimmed |
| RuleStore.LookupAfterWrite | main.go:323-327 | when the first line for `name` is `name = command`, getCommand returns the trimmed command |
| RuleStore.CreateWhenAbsent | main.go:161-179 | with no rule line for `name`, no question is asked: the store becomes the old lines followed by `name = command`, and getCommand then finds the command. Holds when unquoting returns plain lines unchanged and every stored line and the new rule line is plain (no `\`, no `"`, no trailing carriage return) |
| RuleStore.CreateWhenPresent | main.go:162-174 | one question is asked. Any answer but "y" cancels and leaves the file as it was. After "y" only the first rule line changes, in place, and getCommand finds the new command. Holds when unquoting returns plain lines unchanged and every stored line and the new rule line is plain |
| RuleStore.CreateCancelled | main.go:162-170 | whenever a rule line for `name` exists, any answer but "y" cancels, reads exactly one answer and leaves the file as it was |
| RuleStore.UpdateWhenPresent | main.go:243-249 | only the first rule line for `name` is replaced, in place, with every other line kept; getCommand then finds the new command. Holds when unquoting returns plain lines unchanged and every stored line and the new rule line is plain |
| RuleStore.DeleteWhenPresent | main.go:198-204 | the store becomes the lines before and after the first rule line, in order, and one fewer line defines `name`. Holds when unquoting returns plain lines unchanged and every stored line is plain |
| RuleStore.RemoveRuleLine | main.go:200 | splicing out a line that defines `name` lowers the number of rule lines for `name` by one |
| RuleStore.EditWhenAbsent | main.go:251-254 | with no rule line for `name`, updateRule and deleteRule report not-found and write nothing |
| RuleStore.DeleteAllEmpties | main.go:219-233 | after deleteAllRules no rule is found and none exists |
| RuleStore.Entry | main.go:135-140 | a line is skipped exactly when it holds no `=`, and a listed name never holds `=` |
| RuleStore.EntriesWellFormed | main.go:135-141 | every listed entry has a trimmed name free of `=` and a trimmed command |
| RuleStore.EntriesEmpty | main.go:145-147 | nothing is listed exactly when no line holds `=` |
| RuleStore.EntryListed | main.go:133-143 | the entry of every line that holds `=` is listed |
| RuleStore.ListRules | main.go:122-152 | with the file missing, the store is unreadable; otherwise the loop lists exactly the entries of the lines that hold `=`, in file order |
| RuleStore.GetAllRules | main.go:585-609 | the loop collects exactly the listed names, in file order, or none when the file is missing |
| RuleStore.RuleLineEntry | main.go:171 | a line written as `name = command`, for a trimmed name free of `=`, is listed under `name` |
| RuleStore.ExistingRuleIsListed | main.go:567-583 | every trimmed, `=`-free name that ruleExists accepts is among the names getAllRules returns |
| RuleStore.ListedNeedNotExist | main.go:598-601 | a line `name=rest` lists `name`, yet ruleExists rejects `name` and getCommand reports it not found |
| Bottles.PlaceholderAt | main.go:646 | a recognised placeholder has a non-empty name free of `'`, and the text starts with `b%('name')%b` |
| Bottles.PlaceholderAtComplete | main.go:646 | a text that starts with a well-formed placeholder is recognised as that placeholder |
| Bottles.ProcessBottles | main.go:645-653 | processBottles never reads more answers than it is given; FillConsumes, SegmentsRender and the lemmas below give its exact result |
| Bottles.Segments | main.go:646-647 | every placeholder the scan finds has a valid name |
| Bottles.SegmentsRender | main.go:647 | the scanned pieces render back to the command, so nothing is lost or added |
| Bottles.BottlesIffPlaceholder | main.go:646-647 | the scan finds a placeholder exactly when one occurs anywhere in the command |
| Bottles.FillConsumes | main.go:647-652 | filling reads exactly one answer per placeholder |
| Bottles.NoPlaceholderUnchanged | main.go:645-653 | a command without placeholder is returned unchanged, and no answer is read |
| Bottles.OneAnswerPerPlaceholder | main.go:647-652 | processBottles leaves the answers minus one per placeholder |
| Bottles.LeadingPlaceholder | main.go:647-652 | a leading placeholder becomes the first answer, and the scan resumes after the placeholder, never inside the answer |
| Bottles.LeadingCharacter | main.go:647 | a character that starts no placeholder is kept, and the scan moves on by one |
| Bottles.PlainPrefix | main.go:647 | text without the letter `b` is copied through unchanged in front of whatever the rest becomes |
| Bottles.AnswerNotRescanned | main.go:647-652 | for any placeholder at the front and any answer that is itself a placeholder, the answer is inserted verbatim, exactly one answer is read for it, and the rest of the command is filled from the answers after it |
| Bottles.SinglePlaceholder | main.go:645-653 | when neither `before` nor `after` holds the letter `b`, `before + b%('name')%b + after` becomes `before + value + after`, reading exactly one answer |
| Extract.ExportLine | main.go:534 | the export line is exactly seven characters longer than the name and command together |
| Extract.ExportLineParts | main.go:534 | a text that starts with the export line of `name` and `command` starts with `b:`, then the name, then `" = "`, then the command |
| Extract.RuleMatchAt | main.go:461 | a match has a non-empty name free of `=`, and a command free of newline and `:b`; the text starts with the match's export line, and the match covers exactly that line |
| Extract.CloseAfterCommand | main.go:461 | the lazy `(.*?)` stops at the first `:b` after `" = "`, which for an exported rule is its closing `:b` |
| Extract.RuleMatchAtComplete | main.go:461-462 | a text that starts with `b:name = command:b` is matched as exactly that rule, for groups the pattern can produce |
| Extract.Matches | main.go:462 | every match has groups the pattern can produce |
| Extract.ExtractRules | main.go:458-475 | the loop returns one formatted rule per match, in match order |
| Extract.ExtractedWellFormed | main.go:464-470 | every extracted rule is `name = command`, with a trimmed name free of `=` taken from a command group free of newline and `:b` |
| Extract.SkipPlain | main.go:462 | text in which no `b:` starts adds no match, and leaves the matches after it unchanged |
| Extract.MatchesExportLine | main.go:462 | an export line at the front is the first match, and matching resumes right after it |
| Extract.ExportLineRecovered | main.go:461-471 | a lone export line is extracted as `name = command` when the name is trimmed and free of `=`, and the command is trimmed, free of newline and `:b`, and has nothing to unescape |
| Extract.NewlineBreaksMatch | main.go:461 | where a newline comes before the first `:b` after `" = "`, no match starts |
| Export.Exported | main.go:528-535 | no more pairs are exported than names were picked |
| Export.ExportedResolved | main.go:528-535 | every exported pair is a picked name with the command getCommand finds for it, and every picked name getCommand resolves is exported with that command; names that do not resolve, as on the export-all path, are left out |
| Export.CheckWords | main.go:493-502 | no word is invalid exactly when every word names an existing rule, and then the chosen rules are the words, in order |
| Export.Select | main.go:484-511 | the picked names are every listed rule, or names that all exist; each round reads one answer until one is accepted or the answers run out |
| Export.ExportPlan | main.go:477-535 | nothing is exported exactly when no rule is picked; otherwise one more answer is read as the comment, and the content is the comment line followed by one export line per name getCommand resolves |
| Export.SelectRules | main.go:484-511 | the picking loop ends with the names and unread answers of Select: a blank answer picks every listed rule, otherwise it asks again until every word exists |
| Export.BuildExport | main.go:522-535 | the content is the comment line (only when one was given), then one export line per name getCommand resolves, in order |
| Export.ExportRules | main.go:477-535 | exportRules up to its destination prompt: nothing when no rule is picked, otherwise the content for the picked names and the comment |
| Export.ExportedAllFound | main.go:528-535 | when every picked name exists, each is exported, in order, with the command getCommand returns |
| Export.ExportedTrimmed | main.go:529 | every exported command is trimmed |
| Export.MatchesOfExport | main.go:534 | for names and commands the pattern's groups can produce (a non-empty name free of `=`, a command free of newline and `:b`), the export lines joined by newlines are matched one per line, with their own name and command |
| Export.CommentSkipped | main.go:524-526 | a comment line without `b:` adds no match |
| Export.FormatExported | main.go:534 | the extracted rules of recoverable export lines are exactly their `name = command` lines |
| Export.ExportRoundTrip | main.go:522-535 | for trimmed pairs with such groups and commands that unescaping leaves alone, and a comment without `b:`, exported content read as one text is extracted back to exactly the exported rules, in order |
| Export.ExportLinesSingle | main.go:524-535 | every exported line is one line, when names, commands and comment hold no newline |
| Import.ParseImportedAsWritten | main.go:377-383 | the program's split accepts a rule exactly when `strings.Split` on `" = "` gives two parts |
| Import.ParseImported | main.go:377-383 | the corrected split rejects a rule exactly when it holds no `" = "` |
| Import.ParseRuleLine | main.go:377-383 | the corrected split gives back the trimmed name and command of every rule line whose name holds no `=` |
| Import.ExtractedRulesParse | main.go:376-383 | every rule extractRules returns is accepted by the corrected split |
| Import.AsWrittenAgrees | main.go:377-378 | the program's split and the corrected one agree when the command holds no `" = "` |
| Import.CommandWithEqualsSkipped | main.go:377-381 | for a name free of `=`, a rule whose command holds `" = "` is skipped by the program, while the corrected split keeps the whole command |
| Import.CollectExisting | main.go:365-374 | the existing set is exactly the set of names getAllRules would list |
| Import.MergeParsed | main.go:385-397 | a split rule is merged without reading more answers than given; ExistingStep and NewNameStep state its two branches |
| Import.MergeStepAsWritten | main.go:376-397 | the program's merge step: a rule that `strings.Split` does not cut into exactly two parts is skipped, reading no answer |
| Import.MergeAsWritten | main.go:376-398 | the program's merge over all rules never reads more answers than given |
| Import.MergeStep | main.go:376-397 | the corrected merge step: a rule without any `" = "` is skipped, reading no answer, and every rule holding `" = "` is merged under the name and command of its first `" = "` |
| Import.Merge | main.go:376-398 | the corrected merge over all rules never reads more answers than given |
| Import.MergeAgrees | main.go:376-398 | where both splits read every rule alike, the program's merge and the corrected one give the same store and answers |
| Import.EqualsCommandMerged | main.go:377-381 | for a trimmed name free of `=` and a trimmed command, a rule whose command holds `" = "` is skipped by the program's merge step, which reads no answer, while the corrected step merges the whole command |
| Import.RuleLineParsed | main.go:377-383 | a rule line with a trimmed, `=`-free name and a trimmed command without `" = "` is read as that name and command by both splits |
| Import.ImportText | main.go:362-398 | the import loop's store and unread answers are those of the program's merge over the extracted rules, with the existing set computed before the merge |
| Import.ImportFromFile | main.go:401-456 | nothing changes when the imported file cannot be opened; otherwise its scanned lines, each followed by a newline, are extracted and merged as the program merges |
| Import.ImportFromURL | main.go:337-399 | nothing changes when the fetch fails; otherwise the unescaped body is extracted and merged as the program merges |
| Import.DeclinedStep | main.go:386-393 | a present name declined, or an unparsable rule, leaves the store as it was, and reads an answer only when a question is asked |
| Import.DeclineAllKeepsStore | main.go:376-398 | when every rule is skipped by the program or names an existing rule, and no answer is "y", the store is unchanged, and one answer is read per question |
| Import.NewNameStep | main.go:395-397 | in the program's merge, a rule whose command holds no `" = "`, for a name outside the existing set, has exactly the effect of createRule on the store and the answers |
| Import.ExistingStep | main.go:386-394 | in the program's merge, a rule whose command holds no `" = "`, for a name in the existing set, reads one answer, and only "y" hands it to updateRule; any other answer leaves the store as it was |
| Import.ExistingNameUpdated | main.go:386-394 | in the program's merge, a rule whose command holds no `" = "`, for a name in the existing set that the store defines, asks once; on "y" getCommand then finds the new command, otherwise the store is unchanged. Holds when unquoting returns plain lines unchanged and every stored line and the rule line is plain |
| Import.ImportNewRule | main.go:395-397 | in the program's merge, a rule whose command holds no `" = "`, for a name in neither the existing set nor the store, is appended without a question, and getCommand then finds it. Holds when unquoting returns plain lines unchanged and every stored line and the rule line is plain |
| Import.PresentNameAsks | main.go:395-397 | in the program's merge, a rule whose command holds no `" = "`, for a name outside the existing set but defined in the store, goes through createRule, which asks; only "y" overwrites. Holds when unquoting returns plain lines unchanged and every stored line and the rule line is plain |
| Import.DuplicateNameAsksAgain | main.go:365-398 | in the program's merge, two imported rules with the same new name and commands without `" = "`: the first is created, then createRule asks before the second replaces it. Holds when unquoting returns plain lines unchanged and every stored line and both rule lines are plain |
| Import.StaleExistingName | main.go:386-394 | in the program's merge, a name listed but not defined (a line `name=rest`), with a command without `" = "`, reaches updateRule after "y", which finds nothing and changes nothing |
| Import.ExportThenImport | main.go:409-419 | for trimmed pairs with groups the pattern can produce and commands that unescaping leaves alone, and a one-line comment without `b:`, a file holding exported content, imported again, yields exactly the exported rules, in order |
| Runner.Assemble | main.go:291-299 | each requested name is either collected as a command or skipped |
| Runner.FullCommand | main.go:301-306 | nothing is run exactly when no command was collected |
| Runner.RunCommands | main.go:288-313 | the loop collects the processed commands in request order, joined with `" && "`, with the skipped names and the unread answers |
| Runner.SkippedIffUndefined | main.go:291-296 | a name is skipped exactly when it was requested and ruleExists rejects it |
| Runner.NothingRunsIffNoneResolve | main.go:301-304 | nothing is run exactly when no requested name exists |
| Runner.AnswersPerPlaceholder | main.go:297 | across all commands, one answer is read per placeholder of the resolved commands |
| Runner.PlainCommands | main.go:291-299 | without placeholders, the commands are the stored rules of the resolved names, and no answer is read |
| Runner.SingleCommand | main.go:301-306 | one resolved name runs its own processed command, with nothing joined to it |

## Left out

- `main` and `showHelp` (main.go:25-120): argument dispatch and help text. This includes the `-r a` special case and the usage checks.
- Printed messages are not modelled. Instead, each operation returns the outcome it reports.
- Opening, creating and closing files are not modelled; the store is a `File` value. Also left out:
  - `scanner.Err()`, and `bufio.Scanner`'s 64 KiB line limit;
  - a write error inside the buffered writer.
- The HTTP request in `importRulesFromURL` (main.go:338-356) is not modelled; the model is given the response body, or None.
- `executeCommand` (main.go:632-643) is not modelled: running a shell is outside the model. `RunCommands` returns the command line instead.
- Part of `exportRules` (main.go:537-564) is not modelled: its destination loop, the `os.Stat` check and `writeToFile` (main.go:611-630). `ExportRules` returns the content that would be written.
- `strconv.Unquote` and `html.UnescapeString` are parameters. Only `PlainUnquote` is assumed, that unquoting returns plain lines unchanged, and only where a lemma says so.
- The Go regexp engine is not used. The two patterns are hand-written scanners over characters. Go's byte-level UTF-8 handling is not modelled.
- `fmt.Scanln` stops at the first space of a line. The model abstracts this: each answer is what one prompt returns.
- Lines.WriteLinesAsWritten: the model says a failing write leaves an empty file. That ignores the earlier lines bufio may already have flushed once its 4096-byte buffer fills, so the file may hold a prefix of the output.
- Text.Fields: the contract only says each word is a non-empty run of non-space characters. It does not state that the words are all such runs, in order; the body defines that.
- Text.Split: the contract only says the parts join back to the text. It does not say that no part holds the separator.
- Export.ExportRules: ends before the destination prompt, so what it returns is the content, not the file written.
- Text.TrimSpace: its own contract does not say which characters are cut; that is stated by the lemma Text.TrimSpaceCut, kept apart because the existential statement is costly wherever TrimSpace is used.
- RuleStore.GetCommand and RuleStore.ShowRule: their own contracts give when each outcome occurs; what is found is stated by the lemmas RuleStore.GetCommandFinds and RuleStore.ShowRuleFinds, for the same reason.
- Bottles.ProcessBottles: its own contract only bounds the answers read; its exact result is stated by Bottles.FillConsumes, Bottles.SegmentsRender and the lemmas after them.
- Import.MergeParsed: its own contract only bounds the answers read; its two branches are stated by Import.ExistingStep and Import.NewNameStep, which hold for rule lines whose command has no `" = "`.
- Import.MergeAsWritten and Import.Merge: their own contracts only bound the answers read; the lemmas of `import.dfy` state what they do to the store.
- Extract.ExportLine: its own contract states only the length; the layout of the line is stated by Extract.ExportLineParts and used by Extract.RuleMatchAtComplete.

## Findings

| source | as written | input that shows it | evidently intended | confidence | as-written member | corrected member |
|---|---|---|---|---|---|---|
| main.go:377 | the import splits an extracted rule with `strings.Split(rule, " = ")` and needs exactly two parts | `b:x = echo a = b:b` is extracted as `x = echo a = b`, which splits into three parts, so the rule is skipped with "Error parsing rule" and no answer is read (Import.CommandWithEqualsSkipped, Import.EqualsCommandMerged) | split at the first `" = "` only, since extractRules already guarantees a name free of `=` | high (not executed) | Import.MergeStepAsWritten | Import.MergeStep |
| main.go:672-685 | writeLines truncates the file with `os.Create` before any line is unquoted, and returns on the first line that fails | `baby -n a 'echo \\q'` stores `a = echo \q`; the next edit of any rule fails to unquote that line and leaves the store empty (Lines.FailedWriteEmptiesStore, through RuleStore.Commit) | unquote every line first, and leave the store as it was when one fails | high (not executed) | Lines.WriteLinesAsWritten | Lines.WriteLines |

# tsm, modelled in Dafny

tsm is a small tmux session launcher, written in Go in a single file (`main.go`). It builds a list of candidates from three sources:

- the live tmux sessions;
- the git repositories found by walking the configured scan roots;
- the configured bookmark directories.

It gives every directory a session name "<parent>_<base>" and removes duplicate candidates. The user then filters the list with a fuzzy matcher, picks an entry from a small raw-mode terminal selector, and tsm switches to that entry's session (or attaches to it), creating the session first when it does not exist yet.

This project models that core and proves properties of it. The modules follow the program's parts:

| module | what it models |
|---|---|
| `Strings`, `Slices`, `Paths` | The parts of Go's `strings`, `slices` and `path/filepath` that the core relies on. A path is a sequence of segments of a clean absolute path; `[]` is `/`. |
| `Config` | The defaults `loadConfig` fills in, and `defaultExclude`. |
| `Names` | `sanitize` (a loop over a builder) and `sessionNameFromPath`. |
| `Items` | The candidate record, the kind tags and the de-duplication key. |
| `Fuzzy` | `toLower` and `fuzzyScore` (an index loop proved against a recursive scan). |
| `Ranking` | `filterAndRank`: scoring, the sort by score then name, and the limit. |
| `Discovery` | The `WalkDir` callback of `scanGitReposConcurrent` over a directory tree given as a value, the pre-order walk with `SkipDir`, the seen-map collector with its sort, and the whole scan. |
| `Candidates` | The three append loops of `main` and its seen-map de-duplication. |
| `Selection` | The key loop of `interactiveSelect` with its render clamp, and the number prompt of `promptOnce` and of the Windows branch. |
| `Tmux` | `listTmuxSessions`, `hasSession`, `switchToSession`, `createOrSwitchForDir` and the activation at the end of `main`. The shell is an oracle that says whether a command succeeds, and every operation returns the log of the commands it ran. |

Code that works by updating variables in a loop is modelled as a `method` with that loop, proved equal to a specification function: `Sanitize`, `FuzzyScore`, `FilterAndRank`, `Collect`, `ScanGitRepos`, `Assemble`, `Dedup`, `InteractiveSelect` and `ListTmuxSessions`. The lemmas state what the source promises about those functions.

Where the code and its own tests or design notes disagree, the model follows the code:

- **Name of a top-level directory.** `sessionNameFromPath("/single")` is `"session_single"`, not `"single"` as `main_test.go:31` expects. The parent of a top-level directory is `/`; `sanitize("/")` is `"session"`, so the guard against a `/` parent never fires. The same guard makes `"/weird/äö!/n"` give `"session_n"`, not the `"weird_n"` of `main_test.go:30`. `Names.SessionNameTopLevel` and `Names.SessionNameForeignParent` state this.
- **max_depth of 0.** A configured `max_depth` of 0 means 3 (main.go:72-74), not "unlimited". Only a negative depth turns the depth check off.
- **Depth of the `.git` directory.** The depth limit is checked on the `.git` directory itself. A repository is therefore found only when its `.git` directory lies at most `max_depth` levels below the root: `Discovery.WalkRootComplete` states that such a repository is found, `Discovery.WalkRootSound` that nothing else is.

## Model

| member | source | states |
|---|---|---|
| Strings.TrimFuncSlice | main.go:142 | TrimFunc keeps a slice of its input that starts and ends with a kept character, and is empty exactly when every character is trimmed |
| Strings.TrimSpaceIdempotent | main.go:212 | Trimming twice equals trimming once, and every character kept comes from the input |
| Strings.LeTotalPreorder | main.go:217 | The strings.Compare order is total and transitive, as slices.Sort needs |
| Strings.Split | main.go:262 | A split has at least one part and no part contains the separator |
| Strings.JoinSplit | main.go:262 | Joining the parts of a split gives the string back |
| Strings.SplitJoin | main.go:262 | Splitting a join of separator-free parts gives the parts back |
| Strings.IncreasingUnique | main.go:320 | Two strictly increasing lists with the same elements are equal |
| Slices.DedupByDistinct | main.go:312-319 | The seen-map loop keeps at most one element per key, and none whose key was already seen |
| Slices.DedupByKeepsKeys | main.go:312-319 | Every key of the input that was not already seen is kept |
| Slices.DedupBySubsequence | main.go:312-319 | The kept elements are a subsequence of the input in input order |
| Slices.DedupByFirstWins | main.go:625-640 | Each kept element is the first input element with its key |
| Slices.DedupByElements | main.go:625-640 | Nothing is added: the kept elements are a sub-multiset of the input |
| Slices.SortBy | main.go:374-379 | The sort returns a permutation of its input |
| Slices.SortByIsSorted | main.go:374-379 | For a total preorder, the sort's result is ordered |
| Slices.SortedCut | main.go:380-382 | Cutting a sorted list to its first n entries drops only entries that every kept entry may precede |
| Slices.DistinctPermutation | main.go:320 | A permutation of a list without repeats has no repeats |
| Paths.ToString | main.go:298 | A path is rendered as an absolute path, starting with '/' |
| Paths.Dir | main.go:174 | filepath.Dir: the parent, with Dir(p) + [Base(p)] == p below the root |
| Paths.DirBase | main.go:172-174 | Dir and Base take a path one segment longer back apart |
| Paths.CommonPrefix | main.go:258 | The length of the longest common prefix of two paths |
| Paths.DepthFromSteps | main.go:257-263 | depthFrom counts the steps up from root to the common prefix plus the steps down to path |
| Paths.DepthFrom | main.go:257-263 | depthFrom: 0 when filepath.Rel gives ".", otherwise the number of pieces of Rel; `DepthFromSteps`, `DepthFromZero`, `DepthFromBelow` and `DepthFromSymmetric` state its value |
| Paths.DepthFromZero | main.go:257-263 | depthFrom is 0 exactly when path is root |
| Paths.DepthFromBelow | main.go:257-263 | A path n segments below root has depth n |
| Paths.DepthFromSymmetric | main.go:257-263 | depthFrom does not depend on the argument order |
| Paths.DepthFromSelf | main.go:259-261 | The root itself has depth 0 |
| Paths.ToStringInjective | main.go:315-317 | Distinct clean paths render as distinct strings, so de-duplicating by string is de-duplicating by path |
| Config.ApplyDefaults | main.go:69-79 | An empty exclusion list becomes the default one, depth 0 becomes 3, no scan path becomes "<home>/Code" when home is known, and the bookmarks are kept |
| Config.ApplyDefaultsIdempotent | main.go:69-79 | Filling in the defaults twice changes nothing more |
| Config.DefaultExcludeHasGit | main.go:41-50 | The default list has 24 names, ".git" and "node_modules" among them |
| Config.DefaultExcludeNames | main_test.go:55-63 | Of the example tree's names, only "node_modules" is excluded by default |
| Names.Sanitize | main.go:141-168 | The builder loop computes the sanitized name |
| Names.SquashRun | main.go:148-162 | A run of characters that are not name characters puts one '-' into the builder, or none when it continues a run whose '-' is already written |
| Names.SanitizedWellFormed | main.go:141-168 | The result is non-empty, uses only [A-Za-z0-9._-], and neither starts nor ends with '-' |
| Names.SanitizedBlank | main.go:142-145 | Empty or whitespace-only input gives "session" |
| Names.SanitizedForeign | main.go:163-166 | Input made only of other characters gives "session" |
| Names.SanitizedForeignTail | main.go:153-163 | A well-formed word followed by other non-blank characters sanitizes to the word |
| Names.SanitizedFixed | main.go:141-168 | A name is left unchanged exactly when it is already well formed |
| Names.SanitizedIdempotent | main.go:141-168 | Sanitizing twice equals sanitizing once |
| Names.SessionNameFromPath | main.go:172-179 | sessionNameFromPath: the sanitized parent and base joined by '_', or the base alone behind the guard; `SessionNameShape`, `SessionNameNoBar`, `SessionNamesDistinct` and the lemmas below state what it yields |
| Names.SessionNameShape | main.go:172-179 | The name is "<parent>_<base>" unless the sanitized parent is "."; that parent is never "" or "/" |
| Names.SessionNameNoBar | main.go:172-179 | A derived name is non-empty and has no bar character |
| Names.SessionNamesDistinct | main.go:170-178 | Two directories with the same base but different sanitized parents get different names |
| Names.SessionNameTopLevel | main.go:172-179 | A top-level directory gets "session_<base>" |
| Names.SessionNameWellFormed | main.go:172-179 | Well-formed parent and base give "<parent>_<base>" |
| Names.SessionNameForeignParent | main.go:174-178 | A parent made only of other characters gives "session_<base>" |
| Names.SessionNameDotParent | main.go:175-176 | A parent that sanitizes to "." is dropped and only the base remains |
| Items.Tag | main.go:129-133 | Each kind tag is one character, never the bar character |
| Items.DedupKey | main.go:629-634 | The de-duplication key: "S", the bar character and the name for a session; the kind tag, name and path, separated by bars, otherwise; `DedupKeyInjective` states when two keys agree |
| Items.DedupKeyInjective | main.go:629-634 | Two keys are equal exactly when kind and name agree, and also the path for repositories and bookmarks |
| Fuzzy.ToLower | main.go:350-355 | Upper-case ASCII letters are shifted by 32, everything else is unchanged, and the result is never upper case |
| Fuzzy.LowerString | main.go:344 | strings.ToLower agrees with toLower character by character |
| Fuzzy.FuzzyScore | main.go:327-348 | The index loop computes the recursive scan's score |
| Fuzzy.ScoreEmptyNeedle | main.go:328-330 | An empty query scores 1 against anything |
| Fuzzy.ScanMatchesAll | main.go:332-340 | The greedy scan matches the whole query exactly when the case-folded query is a subsequence of the case-folded text |
| Fuzzy.ScoreMissIff | main.go:341-343 | The score is -1 exactly when the query is not such a subsequence, and -1 is the only negative score |
| Fuzzy.ScanPointsBounds | main.go:332-340 | The scan's points lie between 2 per match and the points of one unbroken streak |
| Fuzzy.ScanPrefix | main.go:332-340 | A query that is a prefix of the text is matched in one streak |
| Fuzzy.ScoreBounds | main.go:327-348 | A match scores between 2·n and 2·n + n(n-1)/2 + 5 for a query of length n |
| Fuzzy.ScoreMaxIffPrefix | main.go:344-346 | The top score is reached exactly when the query is a case-folded prefix of the text |
| Ranking.FilterAndRank | main.go:362-384 | The append loop, sort and cut compute the ranked list |
| Ranking.ScoredExact | main.go:364-373 | The loop keeps exactly the matching candidates, each with its own score |
| Ranking.RankBefore | main.go:374-379 | The comparator of slices.SortFunc as "may come before": higher score first, then strings.Compare on the names; `RankBeforeTotalPreorder` and `RankedOrdered` state what it gives |
| Ranking.RankBeforeTotalPreorder | main.go:374-379 | The comparator (higher score first, then by name) is a total preorder |
| Ranking.RankedSound | main.go:362-384 | Every ranked entry is an input candidate that matched, with its score |
| Ranking.RankedOrdered | main.go:374-379 | Entries come by score, highest first, and by name among equal scores |
| Ranking.RankedLimit | main.go:380-382 | A positive limit bounds the length, which never exceeds the input's |
| Ranking.ScoredCount | main.go:364-373 | The loop keeps each matching candidate, with its score, as many times as it occurs in the input, and a candidate that does not match not at all |
| Ranking.RankedComplete | main.go:362-384 | When the limit does not cut, every matching candidate is ranked, as many times as it occurs in the input, and nothing else is |
| Ranking.RankedCutsWorst | main.go:380-382 | What the limit drops ranks no better than anything kept |
| Ranking.ScoredEmptyQuery | main.go:328-330 | An empty query keeps every candidate in order, each with score 1 |
| Ranking.RankedEmptyQuery | main.go:328-330 | With an empty query only the limit drops candidates |
| Ranking.OneCharMatch | main.go:332-343 | A one-character query matches exactly when the text holds that character, ignoring ASCII case |
| Ranking.FilterExample | main_test.go:42-52 | The query "a" ranks exactly the two repositories, each once, and drops the session "util" |
| Discovery.Visit | main.go:287-301 | Report only a ".git" directory; descend only into a non-excluded directory; prune whatever is too deep |
| Discovery.WalkRoot | main.go:283-303 | The WalkDir walk of one root: the callback on the root, then the pre-order walk of its entries (`WalkEntry`, `WalkEntries`) with SkipDir; `WalkRootSound`, `WalkRootExcluded` and `WalkRootComplete` state what it reports |
| Discovery.WalkEntry | main.go:283-303 | One directory entry of the walk: files are skipped, a directory is reported, descended into or pruned as `Visit` decides; `WalkEntriesAcceptable`, `WalkEntriesReal` and `WalkEntriesComplete` state what it reports |
| Discovery.WalkEntries | main.go:283-303 | The entries of one directory in order, each walked before the next; the same three lemmas state what it reports |
| Discovery.WalkEntriesAcceptable | main.go:283-303 | Every reported directory lies on a path of non-excluded, non-".git" directories within the depth limit |
| Discovery.WalkEntriesReal | main.go:297-299 | Every reported directory has a ".git" directory in the tree |
| Discovery.WalkEntriesComplete | main.go:283-303 | A ".git" directory reached through non-excluded directories within the depth limit is reported, nested ones included |
| Discovery.WalkRootSound | main.go:283-303 | A walk reports only real, acceptable repositories, and a root named ".git" reports its parent |
| Discovery.WalkRootExcluded | main.go:291-295 | An excluded root yields nothing |
| Discovery.WalkRootComplete | main.go:283-303 | Every repository whose .git directory is within the limit and not below an excluded name is found |
| Discovery.Collect | main.go:312-321 | The receive loop with its seen-map, then the sort, computes the collected list |
| Discovery.CollectedExact | main.go:312-321 | The collected list is strictly increasing and holds exactly the delivered directories |
| Discovery.CollectedOrderIrrelevant | main.go:312-321 | The result does not depend on the order or multiplicity of the deliveries |
| Discovery.ScanGitRepos | main.go:265-322 | The exclusion set, the walks of all roots and the collector compute the scan |
| Discovery.EmittedMembers | main.go:275-305 | A directory is delivered exactly when some root's walk reports it |
| Discovery.ScannedExact | main.go:265-322 | The scan is strictly increasing and holds exactly the directories some root's walk reports |
| Discovery.ScannedSound | main.go:265-322 | Every scanned directory comes from an acceptable walk of some root |
| Discovery.ScannedComplete | main.go:265-322 | Every repository reachable within the rules from some root is scanned |
| Discovery.ScanExample | main_test.go:54-69 | The tree with r1/.git, x/r2/.git and node_modules/bad/.git gives exactly r1 and x/r2 |
| Candidates.Assemble | main.go:606-623 | The three append loops give the sessions, then the repositories, then the bookmarks |
| Candidates.AssembledNames | main.go:615-622 | Repository and bookmark names never contain the bar character |
| Candidates.Dedup | main.go:625-641 | The seen-map loop computes the de-duplicated list |
| Candidates.DedupedFirstOccurrences | main.go:625-641 | The result keeps input order, has distinct keys and keeps each key's first candidate |
| Candidates.DedupedKeys | main.go:625-641 | No key is lost |
| Candidates.DedupedUnique | main.go:625-641 | Sessions are unique by name; repositories and bookmarks are unique by kind, name and path |
| Candidates.KindsNeverCollide | main.go:629-634 | Candidates of different kinds never share a key, so a session and a repository with the same name are both kept |
| Selection.DecodeRune | main.go:457-523 | For a rune other than ESC (27, which starts an escape sequence): 3, 13, 21, 9, 127 or 8, 14 and 16 select Ctrl-C, Enter, Ctrl-U, Tab, Backspace, down and up, each exactly for those codes, and every other rune is a character |
| Selection.DecodeEscape | main.go:475-513 | After ESC: '[' then A, B, H or 1, F or 4, 5, 6 give up, down, Home, End, page up and page down, each exactly for those bytes; anything else, including a first byte other than '[', is ignored |
| Selection.Clamp | main.go:421-427 | The clamped index is valid for a non-empty list and 0 for an empty one, and a valid index is left alone |
| Selection.Step | main.go:452-525 | One key keeps the index valid for the list shown |
| Selection.Initial | main.go:413-451 | The loop starts with an empty query, index 0 and the preview off, which is a valid index |
| Selection.RenderIdx | main.go:421-427 | render recomputes the candidates and clamps the index |
| Selection.HandleKey | main.go:466-523 | The switch arms for the keys other than Enter and Ctrl-C |
| Selection.InteractiveSelect | main.go:413-525 | The raw-mode loop computes the outcome of the key sequence |
| Selection.EnterConfirms | main.go:460-465 | Enter confirms the highlighted candidate, which is an input item; on an empty list it changes nothing |
| Selection.ClearQueryResets | main.go:466-468 | Ctrl-U empties the query and goes to the first entry |
| Selection.ToggleOnlyPreview | main.go:469-470 | Tab flips the preview and nothing else |
| Selection.BackspaceDrops | main.go:471-474 | Backspace drops the last character, keeps the preview and re-clamps the index to the list for the shorter query; on an empty query it changes nothing |
| Selection.CharAppends | main.go:518-522 | A rune is appended exactly when it is printable ASCII (32..126); the preview is kept and the index is only re-clamped to the new list |
| Selection.StepPrintable | main.go:518-522 | One key keeps the query printable |
| Selection.CancelStops | main.go:458-459 | Ctrl-C cancels at once |
| Selection.MoveDown | main.go:486-487 | Down moves one entry, stopping at the last; the query and the preview are unchanged |
| Selection.MoveUp | main.go:484-485 | Up moves one entry, stopping at the first; the query and the preview are unchanged |
| Selection.MovePageDown | main.go:505-507 | Page down moves five entries, stopping at the last; the query and the preview are unchanged |
| Selection.MovePageUp | main.go:502-504 | Page up moves five entries, stopping at the first; the query and the preview are unchanged |
| Selection.MoveHome | main.go:488-492 | Home goes to the first entry; the query and the preview are unchanged |
| Selection.MoveEnd | main.go:493-501 | End goes to the last entry; the query and the preview are unchanged |
| Selection.RunConfirmedSound | main.go:452-525 | From any rendered state, a confirmed item is an input item and no invalid selection is reported |
| Selection.RunSound | main.go:452-525 | The loop confirms only input items |
| Selection.RunEmpty | main.go:460-464 | With no candidates the loop ends only by Ctrl-C or a read error |
| Selection.TracePrintable | main.go:518-522 | Every state the loop passes through has a printable query and a valid index |
| Selection.RunPrintable | main.go:518-522 | From the start, every query the loop holds is printable ASCII |
| Selection.PromptPick | main.go:528-543 | The pick of entry n from the ranked list cut to a limit; `PromptPickIff` states when it succeeds and what it yields |
| Selection.PromptOnce | main.go:528-543 | promptOnce: the pick from at most 30 entries |
| Selection.WindowsSelect | main.go:389-404 | The Windows branch: the pick from at most 20 entries; `WindowsLimit` states the consequence |
| Selection.PromptPickIff | main.go:528-543 | Entry n is picked exactly when 1 <= n <= the number listed, and it is the n-th listed, matching candidate; otherwise the selection is invalid |
| Selection.WindowsLimit | main.go:389-404 | The Windows branch lists at most 20 entries, so it rejects any n above 20 |
| Tmux.HasSession | main.go:221-223 | hasSession: runs `tmux has-session -t <name>` and succeeds when the shell does |
| Tmux.SwitchToSession | main.go:225-230 | switchToSession: `tmux switch-client -t <name>` inside tmux, `tmux attach -t <name>` outside it |
| Tmux.CreateOrSwitchForDir | main.go:232-240 | createOrSwitchForDir; `CreateOrSwitchHit`, `CreateOrSwitchMiss` and `CreateOrSwitchLog` state which commands it runs and what it returns |
| Tmux.CreateOrSwitchHit | main.go:233-234 | On a hit the only other command is the switch, and its result is the result |
| Tmux.CreateOrSwitchMiss | main.go:236-239 | On a miss the session is created detached in the directory; on failure the error returns without a switch |
| Tmux.CreateOrSwitchLog | main.go:232-240 | has-session runs first; new-session runs exactly on a miss; the switch runs exactly when the session exists or was created; success means the switch succeeded |
| Tmux.FakeShellScenario | main_test.go:71-95 | With the test's fake shell both the inside-tmux and the outside-tmux paths create the session, then switch to it or attach |
| Tmux.Activate | main.go:658-664 | The activation at the end of main: a session is switched to, a repository or bookmark goes through createOrSwitchForDir; `ActivateCreates` states what it runs |
| Tmux.ActivateCreates | main.go:658-664 | Activating a session only switches; activating a directory creates its session, if at all, in that directory |
| Tmux.ListTmuxSessions | main.go:204-219 | The scanner loop computes the session list |
| Tmux.KeptExact | main.go:210-216 | The loop keeps exactly the non-empty trimmed lines |
| Tmux.SessionsExact | main.go:204-219 | An error gives no sessions; otherwise the list is sorted and holds exactly the non-empty trimmed lines, each trimmed and one line long |
| Tmux.SessionsExample | main.go:210-217 | Blank lines and surrounding blanks are dropped, and the names come out sorted |

## Left out

- Concurrency of the scan: one goroutine per root, the channel and the wait group. The walks are run one after another and their output is concatenated. `Discovery.CollectedOrderIrrelevant` shows that the result does not depend on the order in which the channel delivers directories.
- File-system I/O. A root's directory tree is given as a value. Unreadable entries, symbolic links and walk errors (which the callback swallows) are not modelled. So are roots that do not exist and the error branch of `filepath.Rel`, which cannot occur between two clean absolute paths.
- `expandPath`: environment expansion, `~` and `filepath.Abs`. Scan roots and bookmarks are given already expanded and clean; a path that fails to expand is simply absent.
- Reading the configuration file (viper, the XDG lookup), `writeDefaultConfig`, `xdgConfigPath` and the command-line flags of `main`. `Config.ApplyDefaults` takes the unmarshalled values and the home directory as parameters.
- The context deadline of `main` and `exec.CommandContext`: the shell is an oracle, and commands do not time out.
- Terminal handling: `enableRawMode`, `clearScreen`, `stty`, and everything `render` prints (the list and the preview). The loop receives already-decoded key events. `DecodeRune` and `DecodeEscape` give the decoding; the extra '~' byte read after some escape sequences is not modelled.
- The text query and number read by `fmt.Scanln` in `promptOnce` and the Windows branch are parameters of `PromptPick`. The choice between the raw-mode loop, `promptOnce` and the Windows branch (by `runtime.GOOS` and by whether raw mode could be enabled) is not modelled.
- Print mode (`-print`) and the "no candidates" exit of `main`: they only format output.
- Unicode: `strings.ToLower` and `toLower` are modelled on ASCII letters only. `fuzzyScore` indexes bytes; here it indexes characters, which agree on ASCII text. `unicode.IsSpace` is modelled on its fixed list of characters.
- Ranking.RankedOrdered: `slices.SortFunc` is not stable and its order among equal entries is not specified. The model sorts by insertion and claims only order and permutation, so the tie order is left open.
- Tmux: the shell answers each command independently, as the fake shell of the tests does. The effect of `new-session` on a later `has-session` does not arise, because each operation asks at most once.
- Tmux.ListTmuxSessions: `bufio.Scanner` also strips a '\r' before each line break and does not produce a final empty token. Both make no difference after `strings.TrimSpace` and the drop of empty lines. Lines longer than the scanner's buffer are not modelled.

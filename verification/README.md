# vssh sftp shell — a Dafny model

This project models the interactive sftp shell of vssh. The shell has two
sides:

- the **remote side**, an SFTP server reached through a client;
- the **local side**, the machine the shell runs on.

Each side has a working directory and a file tree. The shell reads one line
at a time and splits it into words. The first word, lower-cased, picks a
command from a fixed table:

- `cd`/`lcd`, `pwd`/`lpwd`, `rename`, `less`/`lless`;
- `ls`/`lls` and the interactive browsers `ll`/`lll`;
- `get`/`put`, which copy files and whole trees between the sides;
- the batch commands `mkdir`, `rm`, `mkdirall`, `rmdir`, `lmkdir`, `lrm`,
  `lmkdirall` and `lrmdir`;
- `exit`/`logout`.

Tab completion proposes command names, or the entries of a directory for
`cd`, `lcd`, `less` and `lless`. The prompt loop prints what each command
returns and reports its error, until `exit` ends the session.

The modules follow the structure of the program:

| file | module | what it holds |
|---|---|---|
| outcomes.dfy | Outcomes | errors, results, the lines written to the info and error sinks |
| text.dfy | Text | TrimSpace, Lower, prefix and suffix tests |
| order.dfy | Order | string order and the sorted listing of a finite set |
| paths.dfy | Paths | Go's filepath Clean/Join/Base/Dir/Rel, and the shell's `join`, `base` and `candidate` |
| store.dfy | Store | a file tree with injected faults, and the backend calls the shell makes |
| tree.dfy | Tree | the recursive `rmdir` |
| mirror.dfy | Mirror | getfile/putfile and getdir/putdir |
| env.dfy | Oracles | the collaborators whose code is not modelled |
| shell.dfy | Shell | shell state, `cd`, `pwd`, `rename`, `less` |
| batch.dfy | Batch | the eight batch commands |
| transfer.dfy | Transfer | `get` and `put` |
| listing.dfy | Listing | `findMatches` and `_ls` |
| completion.dfy | Completion | `completeFiles`, the four completers, and the line completer of the sftp command |
| browser.dfy | Browser | `ll` and `lll` |
| session.dfy | Session | the method table, `dispatch`, and the prompt loop of the sftp command |

A backend is a `Store`:

- a finite map from keys (element lists of cleaned absolute paths) to nodes,
  each a `File(bytes)`, a `Dir` or `Other`;
- a set of `Fault(op, key)` values, each making one operation on one path
  fail.

Faults model permission errors and server failures. The same store model
serves the local disk and the SFTP server. A command answers with a `Reply`
holding:

- the new shell state;
- the lines it wrote to the info and error sinks, as one log in order;
- the string it returns;
- its error.

## Model

| member | source | states |
|---|---|---|
| Text.TrimSpace | sftpshell.go:112-115 | the trimmed line is a slice of the input with only white space cut from either end, and it neither starts nor ends with white space |
| Text.TrimSpaceEmpty | sftpshell.go:112-115 | a line is treated as blank exactly when every character of it is Unicode white space |
| Text.LowerIdempotent | sftp.go:160-161 | lower-casing a word that is already lower-cased changes nothing |
| Session.CompletedWordDispatches | sftp.go:160-168 | a completion offered after a known command word starts with the lower-cased word and a space; when that line is read back with the word first, dispatch runs the method the typed word names, or refuses "help" |
| Order.SortedSet | sftpshell.go:665-666 | the listing of a set of names is strictly increasing and has exactly the set's members |
| Order.SortedUnique | sftpshell.go:678-682 | a strictly sorted sequence is determined by the set of its members |
| Paths.SplitJoin | sftpshell.go:133-141 | splitting a separator-joined list of separator-free pieces gives back the pieces |
| Paths.RenderParse | sftpshell.go:133-141 | reading back the string of a clean path gives the same path |
| Paths.CleanParse | sftpshell.go:133-141 | cleaning a path string does not change the path it names |
| Paths.CleanIdempotent | sftpshell.go:133-141 | cleaning a clean string changes nothing |
| Paths.JoinParse | sftpshell.go:133-141 | join returns an absolute name unchanged, keeps a trailing slash, and otherwise names the directory's path followed by the name's elements with `..` resolved |
| Paths.JoinRooted | sftpshell.go:133-141 | any name joined onto an absolute directory gives an absolute path |
| Paths.JoinChild | sftpshell.go:133-141 | a plain name joined onto a directory names that directory's child |
| Paths.JoinChildParent | sftpshell.go:558-580 | `cd sub` then `cd ..` names the directory the shell started in |
| Paths.Base | sftpshell.go:791-797 | base has no separator, and it is empty exactly for a string made only of slashes |
| Paths.BaseOfChild | sftpshell.go:791-797 | the base of a child joined onto a directory is the child's name |
| Paths.DirBase | sftpshell.go:799-811 | joining filepath.Dir and filepath.Base of a path names the same path again |
| Paths.RelThenJoin | sftpshell.go:812-817 | between two absolute paths Rel always succeeds, and joining the relative path onto the base names the target |
| Paths.Candidate | sftpshell.go:799-819 | the candidate has no separator, an empty input completes in the working directory, an input ending in a slash has an empty candidate, and an absolute input keeps the directory unrelativised |
| Paths.CandidateListsInput | sftpshell.go:804-806 | an input ending in a slash has nothing left to complete and lists the directory the input itself names: the input verbatim when absolute, otherwise its elements resolved on top of the working directory |
| Paths.CandidateResolves | sftpshell.go:799-819 | the directory to list is absolute, and for a relative input the relative directory joined onto the working directory names it |
| Paths.CandidateNamesInput | sftpshell.go:799-819 | the listed directory joined with the candidate names the path the user typed |
| Paths.CompletionLands | sftpshell.go:867-888 | a proposal for entry n, joined as the completer joins it and then as the command joins it, names the entry n of the listed directory |
| Store.ListingSpec | sftpshell.go:394-398 | a directory listing is sorted by name, holds exactly the children of the directory, and gives each the node it has |
| Store.Stat | sftpshell.go:185-188 | stat succeeds exactly when the path exists and is not refused, and it reports the node there |
| Store.ReadDir | sftpshell.go:190-193 | reading a directory succeeds exactly when it is an existing, unrefused directory, and it returns the listing |
| Store.Create | sftpshell.go:379-383 | create succeeds exactly when the parent is a directory, the target is not a directory and nothing refuses it, and it leaves an empty file |
| Store.Remove | sftpshell.go:169-176 | remove succeeds exactly when the path exists, is not the root, is not a non-empty directory and is not refused, and then deletes exactly that key |
| Store.Mkdir | sftpshell.go:155-162 | mkdir succeeds exactly when the path is absent, is not the root, its parent is a directory and it is not refused, and then adds exactly a directory there |
| Store.MkdirRemove | sftpshell.go:152-178 | mkdir then rm of the same path restores the tree |
| Store.MkdirAllSpec | sftpshell.go:232-244 | mkdirall succeeds exactly when every missing ancestor may be made, and then it adds exactly the missing ancestors as directories and keeps everything else |
| Store.Rename | sftpshell.go:143-150 | a rename is allowed exactly when the source exists and is not the root, the target is absent with a directory parent, and the target is not inside the source |
| Store.RenameMoves | sftpshell.go:143-150 | a rename moves the whole subtree from the source to the target, with the same nodes, and changes nothing outside those two subtrees |
| Tree.RmTreeFrame | sftpshell.go:183-213 | rmdir only removes, and only at or below the path it is given |
| Tree.RmTreeLog | sftpshell.go:196-209 | rmdir writes only its "rm on" and "rmdir on" lines, and none when it succeeds |
| Tree.RmEntriesLog | sftpshell.go:195-212 | the loop over the children returns the first child error, and reports a line exactly when some child failed |
| Tree.RmTreeRemoved | sftpshell.go:183-216 | rmdir succeeds exactly when the path existed and is gone afterwards |
| Tree.RmTreeWF | sftpshell.go:183-216 | rmdir leaves a well-formed tree |
| Tree.RmTreeExact | sftpshell.go:183-216 | a successful rmdir removes exactly the subtree at the path, against the reference definition Prune |
| Tree.RmTreeComplete | sftpshell.go:183-216 | with no stat, listing or remove refused at or below the path, rmdir succeeds |
| Tree.RmEntriesSiblings | sftpshell.go:194-212 | every child whose subtree has no refusing fault is removed and not counted as failing, even when an earlier sibling failed |
| Tree.RmEntriesReports | sftpshell.go:194-212 | the children reported in the log are exactly the children that fail at their turn, in order, and with no earlier error the loop succeeds exactly when none failed |
| Tree.RmTreeChildren | sftpshell.go:183-216 | rmdir of a readable directory reports exactly its failing children, succeeds exactly when none failed and the emptied directory can be removed, and removes every child with no fault below it |
| Mirror.CopyFileOk | sftpshell.go:373-392 | a file copy succeeds exactly when the source opens, the target can be created and written, and the source is a regular file |
| Mirror.CopyFileResult | sftpshell.go:373-392 | a successful file copy puts the source's node at the target and logs one "downloaded" or "uploaded" line; a failed one logs nothing and leaves at most an empty target file |
| Mirror.CopyFileReadBack | sftpshell.go:373-392 | reading the copied file back gives what the source holds |
| Mirror.CopyTreeOk | sftpshell.go:394-420 | a directory copy fails exactly when the listing fails or making the directory fails with something other than "exists", and then it changes and logs nothing; on success its last line reports the directory |
| Mirror.CopyTreeDirected | sftpshell.go:394-420 | a download logs only download lines and an upload only upload lines |
| Mirror.CopyTreeFrame | sftpshell.go:394-420 | a directory copy writes only inside the directory it makes, and the faults stay the same |
| Mirror.CopyTreeWF | sftpshell.go:394-420 | a directory copy leaves a well-formed tree |
| Mirror.CopyTreeMirror | sftpshell.go:394-420 | when nothing obstructs it, a directory copy succeeds, and the new directory holds exactly the directories and regular files below the source: each at the same relative place with the same bytes, and nothing else |
| Mirror.CopyEntriesMirror | sftpshell.go:403-416 | each child that is clear is mirrored exactly, with nothing extra below its copy, whatever happened to the siblings copied before it |
| Mirror.CopyTreeClean | sftpshell.go:394-420 | when nothing obstructs it, a directory copy logs no failure line |
| Mirror.UploadThenDownload | sftpshell.go:487-514 | put of a directory followed by get of the copy brings back exactly the directories and regular files of the original, with the same names and bytes and nothing more |
| Batch.RunShape | sftpshell.go:152-300 | a batch command without arguments is refused and changes nothing; with arguments it succeeds, prints nothing and changes only its own side |
| Batch.RunArgsReports | sftpshell.go:156-163 | the "%s: %s" lines name exactly the arguments whose operation failed, in argument order |
| Batch.RunArgsCovers | sftpshell.go:156-163 | every argument either reached its goal (made, or removed) or is reported as failed |
| Batch.RunArgsMonotone | sftpshell.go:152-300 | the making commands (mkdir, mkdirall, lmkdir, lmkdirall) only add paths, and rm, lrm and rmdir only remove them; lrmdir is in neither group because os.RemoveAll is an oracle here |
| Batch.RunValid | sftpshell.go:152-300 | the batch commands keep both trees well formed |
| Shell.CdSpec | sftpshell.go:530-580 | cd succeeds exactly when it has at most one argument, a target, and the target is an existing directory that can be stat'ed and opened; then it moves only that side's working directory, and otherwise changes nothing |
| Shell.CdValid | sftpshell.go:530-580 | cd keeps both working directories absolute |
| Shell.CdChildAndBack | sftpshell.go:558-580 | entering a subdirectory and then `..` succeeds and returns to the same directory, changing nothing else |
| Shell.CdThenPwd | sftpshell.go:516-580 | after a successful cd, pwd prints the directory cd entered |
| Shell.RenameCmdSpec | sftpshell.go:143-150 | rename needs exactly two arguments, succeeds exactly when the backend rename does, moves the subtree and leaves the rest of the remote tree alone |
| Shell.LessCmdSpec | sftpshell.go:302-326 | less changes nothing and succeeds exactly when it has one argument, the file opens and the pager succeeds |
| Transfer.ClassifySpec | sftpshell.go:339-355 | every argument is sorted into exactly one of directories, regular files or reported lines; every directory and regular file among the arguments is kept |
| Transfer.TransferShape | sftpshell.go:328-371 | get and put fail only when the picker fails without arguments; they print nothing and change only the destination side |
| Transfer.TransferLog | sftpshell.go:339-369 | the log starts with the classification lines, all errors, and the rest holds only lines of the copy's own direction |
| Transfer.TransferFrame | sftpshell.go:357-369 | get and put write only at the targets of the directories and files they copy |
| Transfer.TransferDirMirrors | sftpshell.go:328-371 | get or put of one directory, with nothing in the way, succeeds, leaves the source alone, logs no failure, and the new directory on the other side holds exactly the tree's directories and regular files |
| Transfer.CopySingleDir | sftpshell.go:357-369 | get or put of one directory is one tree copy plus a failure line when that copy fails |
| Transfer.TransferValid | sftpshell.go:328-371 | get and put keep both trees well formed |
| Listing.MatchesOk | sftpshell.go:597-607 | matching succeeds exactly when every pattern is accepted, and the matches are the union of each pattern's results joined onto the working directory |
| Listing.MatchesFail | sftpshell.go:597-603 | a failed match reports the first rejected pattern |
| Listing.FindMatchesRooted | sftpshell.go:582-608 | every match is absolute |
| Listing.LsCmdShape | sftpshell.go:610-701 | ls changes nothing and fails exactly when some pattern is rejected |
| Listing.SectionOrder | sftpshell.go:678-691 | the "." group comes first when it is not empty, then the other groups in sorted order |
| Listing.ShownIff | sftpshell.go:657-660 | a group is printed exactly when it is not empty |
| Listing.LsSorted | sftpshell.go:664-673 | every printed group is sorted by name |
| Listing.ListedDirectory | sftpshell.go:629-673 | a matched readable directory is printed under its relative path exactly when it has entries, and its rows are exactly its entries that can be stat'ed |
| Listing.LsHere | sftpshell.go:593-596 | ls without arguments prints one "." group of exactly the working directory's entries that can be stat'ed, or nothing for an empty directory |
| Completion.ProposalSpec | sftpshell.go:890-912 | an entry is proposed exactly when the filter admits it, and a proposal ends in a slash exactly when it is a directory |
| Completion.CompleteFilesSpec | sftpshell.go:890-926 | a completion is exactly the quoted proposal of an entry that starts with the candidate |
| Completion.CompleteInSound | sftpshell.go:767-888 | every completion, joined onto the working directory, names an existing entry of the listed directory that starts with the candidate, and a directory for cd/lcd |
| Completion.CompleteInComplete | sftpshell.go:767-888 | every entry of the listed directory that starts with the candidate is offered |
| Completion.CdCompletionEnters | sftpshell.go:867-888 | a cd/lcd completion names a directory, and cd to it succeeds when it can be stat'ed and opened |
| Completion.LessCompletionExists | sftpshell.go:767-842 | a less/lless completion names an existing entry |
| Completion.CompleterCommand | sftp.go:161-168 | after a known command word, the completions are exactly the command's argument completions behind the command and a space |
| Completion.CompleterWord | sftp.go:169-174 | a single unknown word completes to the command names it starts; anything longer completes to nothing |
| Completion.CompleterNoCompleter | sftpshell.go:103-109 | a command without an argument completer completes to nothing |
| Browser.BrowseShape | sftpshell.go:703-765 | the browser prints and logs nothing, and only moves the working directory of its side, always to a directory it could enter |
| Browser.BrowseValid | sftpshell.go:703-765 | the browser keeps both working directories absolute |
| Session.LookupSpec | sftpshell.go:57-81 | a word finds a method exactly when it is in the table, under its own key, with logout sharing exit's method |
| Session.LookupKey | sftpshell.go:57-81 | every method is found again under its key |
| Session.DispatchBlank | sftpshell.go:112-115 | a blank line changes nothing and answers nothing |
| Session.DispatchRoutes | sftpshell.go:123-130 | an unknown word is refused under its lower-cased name, and a known one runs its method on the remaining words |
| Session.DispatchExit | sftpshell.go:99-101 | exit and logout, in any case, end the session and change nothing |
| Session.CommandsAndMethods | sftp.go:140-151 | the completer's command list is the method table plus "help" |
| Session.HelpRefused | sftp.go:140-151 | "help" is offered by completion but dispatch refuses it as an unknown command |
| Session.DispatchValid | sftpshell.go:111-131 | every command keeps both working directories absolute and both trees well formed |
| Session.ReactSpec | sftp.go:197-208 | a successful answer is printed as it is when it ends in a newline, followed by one newline when it is non-empty and does not, and not at all when empty; an error prints nothing and is reported last |
| Session.LoopAppend | sftp.go:179-209 | running the loop on two batches of lines, the first not ending the session, is running it on the first and then on the second |
| Session.LoopStops | sftp.go:197-200 | once a line ends the session, later lines change nothing |
| Session.ExitEnds | sftp.go:197-200 | a session whose first line is exit stops there, unchanged and silent |
| Session.EmptyWordsCrash | sftpshell.go:117-124 | a non-blank line that parses fully into no words fails on `args[0]` and ends the whole session |

## Left out

- Session.Dispatch: lower-cases only ASCII letters (`Text.Lower`), where Go's strings.ToLower maps every Unicode letter. A command word spelled with a non-ASCII letter whose lower case is ASCII, such as "EXİT" or "MKDIR" (spelled with the Kelvin sign), is refused here but run in Go. The same holds for `Session.DispatchRoutes`, `Session.DispatchExit` and `Session.ExitEnds`.
- Completion.Completer: uses the same ASCII-only lowering, so command words with such letters complete differently from Go.
- Store.Stat: a symbolic link is an `Other` node, and stat does not follow it. In Go, os.Stat and Client.Stat follow links. So `get` of a link to a file is reported as not regular here, `cd` into a link to a directory is refused here, `rmdir` of a link to a directory removes only the link here, and `ls` of such a link lists it by name. This affects `Shell.Cd`, `Transfer.Copy`, `Tree.RmTree` and `Listing.Ls`.
- Store.KeyOf: drops a trailing slash when it maps a path to its key, where `join` keeps it. So `rm file/`, `get file/` and `less file/` act on the file here, while the operating system refuses them with "not a directory". This affects `Batch.Run`, `Transfer.Copy`, `Tree.RmTree` and `Shell.LessCmd`.
- Store.KeyOf: also resolves `.` and `..` by text alone. A relative name reaches a backend already cleaned by filepath.Join, so for it the two agree. An absolute name is passed on verbatim (sftpshell.go:134-135), and the operating system or the SFTP server resolves `..` against the real directories. So where `..` follows a missing or non-directory element, the model and Go part ways:
  - `rm /a/m/..` with /a/m missing removes an empty /a here (`Store.Remove`), where Go fails with "no such file or directory";
  - `mkdir /a/m/../n` makes /a/n here (`Store.Mkdir`), where Go fails;
  - `mkdirall /x/y/../z` makes /x and /x/z here (`Store.MkdirAllSpec`), where Go's MkdirAll, recursing on the raw string, makes /x, /x/y and /x/z;
  - `cd /a/m/..` enters /a here (`Shell.Cd`), where Go fails.
- Store.Listing: returns the entries of a directory sorted by name on both sides. ioutil.ReadDir sorts; Client.ReadDir returns the server's order. So on the remote side, the order decides which child's error rmdir returns first (`Tree.RmEntriesLog`), the order of copies in `get`, and the order of `cd`/`less` proposals. The sets involved are the same.
- Store.MkdirAll: consults no stat fault and reports a refusal only as the failing mkdir. Go's MkdirAll stats the path first and may fail there.
- Mirror.CopyTree: treats the "exists" error of mkdir alike on both sides. Go tests it with os.IsExist, which does not recognise an SFTP status error, so `put` of a directory that already exists on the server fails in Go.
- Store.Write: a write is all or nothing. A partial io.Copy, short writes and closing files are not modelled.
- File modes, permissions, owners, sizes and times are not modelled. A refusal is an injected `Fault`.
- Error text: errors are values of the `Error` datatype, not formatted strings. The panic message of `args[0]` is not modelled; the session just ends with `Crashed`.
- The info and error sinks are one log in order. The colouring of error lines is not modelled.
- The collaborators are values or total functions of `Env`: the shell-words tokenizer, quote, the home directory, the two glob functions, the fuzzy pickers, the pager ShowFile, the column formatter FormatListOfFiles, the terminal width and os.RemoveAll. Their code is not part of this model.
- Batch.RunValid: lrmdir uses os.RemoveAll, an oracle. Its well-formedness rests on the hypothesis `RemoveAllKeepsTree`, that the oracle leaves a well-formed tree; `Session.DispatchValid` and `Session.Session` assume it too.
- Completion.CompleteInSound: holds for the completions the quoting leaves unchanged (the `PlainFor` hypothesis), because a quoted name is not the entry's name. The same holds for `Completion.CdCompletionEnters` and `Completion.LessCompletionExists`.
- Browser.Browse: the choices of the interactive table picker are an input sequence, and the listing is used only for its error. The table itself is not modelled.
- The prompt loop reads a finite sequence of lines, and its end stands for io.EOF. The prompt text, history, Ctrl-C aborts and prompt read errors are not modelled.
- The command-line part of the sftp command is not modelled: flags, the SSH and SFTP connection, and newShellState's initial Getwd calls. A shell state starts from any valid state.
- Concurrency and the network are absent: every backend call is atomic and deterministic in the store.

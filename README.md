# zig-repos-data-miner, modelled in Dafny

This project models the core of zig-repos-data-miner: a service that mines
git repositories of Zig code into a directed graph, persists the graph in
SQLite, and answers a `/commits` query. It also models a companion script
that builds a prompt from the project's source files.

The graph has three kinds of node:

- commits, keyed by hash, with timestamp, author and message;
- `.zig` files;
- folders.

Edges carry one of the relations "modifies" (commit → file), "contains"
(folder → file) and "references" (file → imported name).

The model is split into these modules:

- **GraphModel** models the part of a networkx `DiGraph` that the core uses.
  A node has an attribute dictionary that `add_node` merges into. An ordered
  pair has at most one edge. `add_edge` creates missing endpoints with no
  attributes and replaces the pair's label. The graph that the helpers update
  in place is the class `Graph`. `GraphValue` is its value, and the
  specification functions are stated over it.
- **Construction** holds the `main.py` helpers as methods on the shared graph,
  each proved against a function on graph values:
  - `add_commit`, `add_file`, `add_folder`, `add_file_to_folder`, `add_reference`;
  - the commit-log loop of `process_repository`;
  - the import loop of `analyze_zig_file`.

  The `add_commit`, `add_file` and `add_reference` of `run.py` have bodies
  identical to these, so the same members model them.
- **CommitLog** models both ways of reading a `%H|%at|%an|%s` log line:
  - `main.py` splits at every '|' and keeps lines with exactly four fields;
  - `run.py` splits at the first three '|' and raises on a line with fewer.
- **ImportScan** is the regular expression `@import\s*\(\s*"(.*?)"\s*\)`
  written as a left-to-right scanner. At each position the scanner captures
  exactly what a declarative reading of the regex captures there. Over the
  whole text, `findall` is proved sound, and complete for the first match
  from each position on.
- **Persistence** covers:
  - `save_graph_to_db`, which is insert-or-ignore into the `nodes` and
    `edges` tables;
  - `load_graph_from_db`, for rows read in any order;
  - the save/load round trip;
  - the SQL-backed `get_commits`.
- **RunVariant** covers the older `run.py` synchroniser:
  - its log loop, which aborts on a malformed line;
  - its walk over the repository, which links every `.zig` file to the last
    commit of the log and records its imports;
  - how a run ends;
  - its graph-backed `get_commits`.
- **PromptScript** covers `scripts/regenerate_prompt.py`:
  - the comment pass and the docstring pass of `remove_comments_from_code`;
  - the per-file block with its header;
  - the assembly of the prompt from `main.py`, the sorted `.py` files of
    `tests`, and a closing request.
- **Text**, **PosixPath** and **Wrappers** are support modules. Text holds
  the Python `str` operations the core uses. PosixPath holds `os.path`
  `basename`, `dirname` and `join`. Wrappers holds `Option` and `Result`.

Outside effects are parameters:

- the output of `git log`, or None when the command failed;
- the `os.walk` listing, with each file's content, or None when it cannot be
  read as text;
- the tables' contents, in the order the database returns them;
- the result of opening each file the prompt script reads, as a `Result`
  carrying the exception message on failure.

## Model

| member | source | states |
|---|---|---|
| GraphModel.GraphValue.AddNode | main.py:93 | `add_node` adds exactly the given id to the node set and leaves the edges alone |
| GraphModel.GraphValue.AddNodeMerges | main.py:159-160 | `add_node` sets the given attributes, keeps the node's other attributes (none for a new node), leaves every other node alone and keeps the graph valid |
| GraphModel.GraphValue.AddEdge | main.py:100 | `add_edge` adds both endpoints to the node set and gives the pair exactly the new label, replacing an older one |
| GraphModel.GraphValue.AddEdgeCreatesEndpoints | main.py:111 | `add_edge` leaves existing nodes as they are, gives created endpoints an empty dictionary, and keeps every edge's endpoints present |
| GraphModel.MergeComplete | main.py:79 | merging a dictionary that sets all four attributes leaves exactly that dictionary, whatever the node held before |
| GraphModel.Graph.constructor | main.py:12 | a new graph is empty and valid |
| GraphModel.Graph.Has | main.py:98 | `id in G` holds exactly when the id is a node |
| GraphModel.Graph.AddNode | main.py:93 | the in-place `add_node` leaves the graph value `AddNode` describes |
| GraphModel.Graph.AddEdge | main.py:100 | the in-place `add_edge` leaves the graph value `AddEdge` describes |
| Construction.CommitAttrs | main.py:93 | `add_commit` writes all four attributes |
| Construction.CommitAdded | main.py:90-93 | `add_commit` gives the hash node exactly the commit's four attributes, whether or not it existed, changes no other node or edge, and keeps the graph valid |
| Construction.AddCommit | run.py:16-17 | the in-place `add_commit` leaves the graph `CommitAdded` describes |
| Construction.FileAdded | main.py:96-100 | `add_file` adds the file and commit nodes and keeps the attributes of existing nodes. A new file is typed "file" and a new commit node has no attributes. The (commit, file) pair is labelled "modifies" |
| Construction.AddFile | run.py:19-22 | the in-place `add_file` leaves the graph `FileAdded` describes |
| Construction.FileAddedIdempotent | main.py:96-100 | adding the same file for the same commit twice gives the graph adding it once gives |
| Construction.FolderAdded | main.py:103-105 | `add_folder` creates the folder node, typed "folder", only when it is absent, and changes nothing else |
| Construction.AddFolder | main.py:103-105 | the in-place `add_folder` leaves the graph `FolderAdded` describes |
| Construction.FiledInFolder | main.py:108-111 | `add_file_to_folder` makes `dirname(file)` a folder node when absent and labels (dirname, file) "contains". A file node it creates has no attributes; existing nodes keep theirs |
| Construction.AddFileToFolder | main.py:108-111 | the in-place `add_file_to_folder` leaves the graph `FiledInFolder` describes |
| Construction.ReferenceAdded | main.py:114-120 | `add_reference` creates both ends, typed "file", only when absent, keeps existing nodes, and labels (src, dest) "references" |
| Construction.AddReference | run.py:24-29 | the in-place `add_reference` leaves the graph `ReferenceAdded` describes |
| Construction.HelpersKeepValid | main.py:96-120 | every helper keeps each edge's endpoints among the nodes |
| Construction.LogCommits | main.py:143-146 | the log loop keeps only lines that split into exactly four bar-free fields, and keeps every such line. Each commit kept writes back to a line of the log |
| Construction.LogCommitsAppend | main.py:143-146 | the loop reads the log line by line: the commits of two stretches of log come one after the other, in log order |
| Construction.LogCommitsOfLine | main.py:144-146 | one line gives its commit when it splits into exactly four fields, and nothing otherwise |
| Construction.LatestCommits | main.py:143-147 | the hashes the log overrides are exactly the hashes of its commits |
| Construction.CommitsAppliedOverrides | main.py:143-147 | applying the commits of a log overwrites each logged hash with its attributes and leaves every other node and every edge alone |
| Construction.LatestCommitIsLast | main.py:143-147 | a hash that occurs more than once in the sequence of commits keeps the attributes of its last occurrence. By `LogCommitsAppend` that sequence is in log order, so the later log line wins |
| Construction.CommitsAppliedIdempotent | main.py:131-147 | processing the same log twice gives the graph processing it once gives |
| Construction.CommitsAppliedKeepsValid | main.py:143-147 | the commit loop keeps the graph valid |
| Construction.ProcessRepository | main.py:131-147 | `process_repository` adds one commit per well-formed log line in log order. A failed git call adds nothing |
| Construction.MalformedLineSkipped | main.py:144-145 | a line without exactly three bar characters is skipped: one good line and one bad line give exactly one commit node |
| Construction.ImportsRecorded | main.py:158-161 | a file with no import leaves the graph unchanged |
| Construction.ImportsRecordedEffect | main.py:158-161 | with at least one import, the file and every import are typed "file" and keep their other attributes. Absent ones are created and no other node changes. Each (file, import) pair is labelled "references", every other edge keeps its label, and validity is kept |
| Construction.RetypedNodesEffect | main.py:159-160 | the two `add_node` calls per import give the file and each import the type "file" and leave every other attribute and every other node alone |
| Construction.ReferenceEdgesEffect | main.py:161 | the `add_edge` per import labels each (file, import) pair "references" and keeps every other edge |
| Construction.ImportsRecordedStep | main.py:158-161 | one more pass of the loop body extends the recorded imports by that import, in whatever order the set is iterated |
| Construction.AnalyzeZigFile | main.py:150-164 | an unreadable file leaves the graph unchanged. Otherwise every distinct name the regex captures is recorded as `ImportsRecorded` describes |
| CommitLog.ParseExact | main.py:144-146 | splitting at every bar character gives four fields exactly when the line holds three bars. The fields are bar-free and, written back with bars between them, give the line |
| CommitLog.ParseFirstThree | run.py:47 | splitting at the first three bar characters unpacks exactly when the line has at least three bars. The first three fields are bar-free, the message keeps any further bars, the fields give the line back, and a short line is an error naming it |
| CommitLog.ParsersAgree | run.py:47 | on a line with exactly three bar characters the two readings give the same commit |
| CommitLog.JoinUnique | main.py:144-146 | commits whose first three fields are free of bar characters are determined by the line they write |
| ImportScan.SkipSpaces | main.py:156 | `\s*` consumes the longest run of whitespace |
| ImportScan.SkipSpacesUnique | main.py:156 | a run of whitespace followed by a non-space character or the end is exactly what `\s*` consumes |
| ImportScan.OpenAt | main.py:156 | an opening match starts with `@import` and ends just after a '"' |
| ImportScan.OpenAtSound | main.py:156 | an opening match is `@import`, whitespace, '(', whitespace, then '"', and ends just after that quote |
| ImportScan.OpenAtComplete | main.py:156 | wherever the text has `@import`, whitespace, '(', whitespace and '"', the opening matches and ends just after the quote. So it fails exactly when that shape is absent |
| ImportScan.CloseAt | main.py:156 | a closing match is '"', whitespace, then ')', and ends just after the ')' |
| ImportScan.CloseAtComplete | main.py:156 | wherever the text has '"', whitespace and ')', the closing matches there and ends just after the ')'. So it fails exactly when that shape is absent |
| ImportScan.CloseFrom | main.py:156 | the lazy group ends at the first position where the closing matches, with no line break inside. No such position means no match |
| ImportScan.MatchAt | main.py:156 | a match captures a name without a line break and ends past its start |
| ImportScan.MatchAtIsImport | main.py:156 | the scanner captures a name at a position exactly when the regex read declaratively does (both directions) |
| ImportScan.FindAll | main.py:156 | every captured name is free of line breaks |
| ImportScan.FindAllSkipTo | main.py:156 | positions where no match starts add nothing to `findall`, which resumes after them |
| ImportScan.FindAllFirstMatch | main.py:156 | when no match starts before position j and a match starts at j, `findall` gives that match's name, then what it finds from the match's end |
| ImportScan.FindAllNoMatch | main.py:156 | when no match starts anywhere from a position on, `findall` finds nothing there |
| ImportScan.FindAllComplete | main.py:156 | the first name the regex captures from a position on is in the result of `findall` |
| ImportScan.FindAllSound | main.py:156 | every name `findall` returns is captured by a regex match in the text |
| ImportScan.NoKeywordNoImports | main.py:156 | text that never spells `@import` has no import |
| ImportScan.SkipPlainText | main.py:156 | text without '@' in front of a match does not change the result |
| ImportScan.ImportsOfSample | run.py:61 | `const s = @import("core");` imports exactly "core" |
| Persistence.AttrsOf | main.py:78-79 | the dictionary load writes sets all four attributes and saves back to the same row |
| Persistence.EdgeLinks | main.py:66 | each edge gives the row (u, v, relation), and each row comes from an edge |
| Persistence.SavedRows | main.py:54-60 | insert-or-ignore keeps every stored row and adds the row of each new node id |
| Persistence.Saved | main.py:49-69 | a save inserts-or-ignores the node rows and adds the edge rows |
| Persistence.SavedIdempotent | main.py:49-69 | saving the same graph again leaves the store as the first save left it |
| Persistence.LoadedUniqueRelation | main.py:81-84 | a stored pair whose rows all carry one relation loads with that relation |
| Persistence.LoadEmptyStore | main.py:72-86 | loading from an empty database changes nothing |
| Persistence.LoadEdgeStep | main.py:82-84 | each `add_edge` of load's second loop keeps the load's description true |
| Persistence.EndpointsAreNodes | main.py:63-66 | the edge rows of a valid graph name only its nodes |
| Persistence.RoundTripNodes | main.py:49-86 | save into an empty store, then load: the same node ids come back with the same four attributes |
| Persistence.RoundTripEdges | main.py:49-86 | save into an empty store, then load: exactly the same labelled edges come back |
| Persistence.SaveLoadRoundTrip | main.py:49-86 | the whole graph round-trips through the store, up to attributes that read as None |
| Persistence.Store.constructor | main.py:25-46 | an initialised database holds no rows |
| Persistence.SaveRows | main.py:54-60 | the node loop inserts-or-ignores every node row and writes no edge row |
| Persistence.SaveLinks | main.py:63-66 | the edge loop adds every edge row and writes no node row |
| Persistence.SaveGraph | main.py:49-69 | `save_graph_to_db` leaves the store `Saved` describes |
| Persistence.LoadRowStep | main.py:77-79 | each `add_node` of load's first loop, passing all four attributes, replaces whatever the node held by its row's dictionary |
| Persistence.LoadRows | main.py:76-79 | after the node loop every stored id has exactly its row's attributes, other nodes are unchanged, and the edges are untouched |
| Persistence.LoadLinks | main.py:81-84 | after the edge loop every stored pair is an edge with one of its stored relations, other edges are unchanged, and endpoints only named by edge rows are attribute-less nodes |
| Persistence.LoadGraph | main.py:72-86 | `load_graph_from_db` leaves a graph as `Loaded` describes, for any order the rows are read in |
| Persistence.ShortId | main.py:173 | `id[:7]` is the first seven characters, or the whole of a shorter id |
| Persistence.GetCommits | main.py:168-175 | every view in the answer comes from a commit row, each as its short id and three columns, and every commit row gives a view in the answer |
| Persistence.GetCommitsAppend | main.py:172-173 | the answer follows the rows in read order: two stretches of rows give their views one after the other |
| Persistence.GetCommitsSnoc | main.py:172-173 | one more row adds its view at the end when it is a commit row and nothing otherwise, so each commit row gives exactly one view, in read order |
| Persistence.GetCommitsOfStore | main.py:172-173 | over a listing of the table, a view is in the answer exactly when some stored commit row gives it (both directions) |
| RunVariant.ReferencesAdded | run.py:62-63 | the import loop adds exactly the file and the imports as nodes (none when there is no import) and exactly the (file, import) pairs as edges |
| RunVariant.ReferencesAddedEffect | run.py:62-63 | existing nodes keep their attributes, created ones are typed "file", each (file, import) pair is labelled "references", and other edges keep their labels |
| RunVariant.ReferencesAddedStep | run.py:62-63 | one more `add_reference` extends the result by that import, so the set iteration order does not matter |
| RunVariant.ReferencesAgreeOnNewNodes | run.py:57-65 | where the file and its imports are all new, this import loop and the one in main.py leave the same graph |
| RunVariant.AnalyzeZigFile | run.py:57-65 | an unreadable file leaves the graph unchanged. Otherwise `add_reference` runs for each distinct captured name |
| RunVariant.FirstMalformed | run.py:46-47 | gives the first line with fewer than three bar characters, whose predecessors all unpack, and gives nothing exactly when every line unpacks |
| RunVariant.RunCommits | run.py:46-48 | a well-formed log gives one commit per line, each read from its line by splitting at the first three bar characters |
| RunVariant.StepZigs | run.py:51-53 | every selected path ends in ".zig", and every ".zig" file of the directory is selected under its joined path |
| RunVariant.StepZigsFromEntries | run.py:51-53 | every selected file is a ".zig" entry of the directory, joined to its root, with that entry's content |
| RunVariant.StepZigsStep | run.py:51-53 | one more entry adds its selected file at the end when its name ends in ".zig" and nothing otherwise, so the files are selected in listing order, each once |
| RunVariant.ZigFiles | run.py:50-53 | every selected path ends in ".zig", and every ".zig" entry of every directory of the walk is selected under its joined path |
| RunVariant.ZigFilesFromEntries | run.py:50-53 | every selected file is a ".zig" entry of one of the walk's directories, joined to that directory's root |
| RunVariant.ZigFilesStep | run.py:50-53 | one more directory adds its selected files after those of the earlier ones, so the selection is in walk order |
| RunVariant.ZigFilesLinked | run.py:50-55 | every selected file ends up a node linked "modifies" from the commit |
| RunVariant.ZigFilesKeep | run.py:50-55 | the walk keeps every existing node and its attributes and removes no edge |
| RunVariant.RunOutcomes | run.py:38-55 | a run completes exactly when every line unpacks and the `.zig` files, if any, have a commit hash. A run stops at the first malformed line with the earlier commits added. `.zig` files with an empty log raise before anything changes |
| RunVariant.RunLinksZigFiles | run.py:38-55 | after a completed run with a non-empty log, every `.zig` file is linked "modifies" from the last commit of the log |
| RunVariant.RunCompletes | run.py:38-55 | a well-formed non-empty log adds its commits, then the `.zig` files linked from its last commit |
| RunVariant.RunWithoutZigFiles | run.py:38-55 | without `.zig` files a run adds exactly the log's commits and completes |
| RunVariant.ProcessLog | run.py:46-48 | the log loop adds the commits up to the first malformed line and reports that line. Otherwise the hash it leaves is that of the last line |
| RunVariant.ZigFilesAppliedAppend | run.py:50-55 | processing two runs of files in turn is processing them together |
| RunVariant.ProcessDirectory | run.py:51-55 | each `.zig` file of a directory gets `add_file` and `analyze_zig_file`. Without a hash the first one stops the run before any change |
| RunVariant.ProcessWalk | run.py:50-55 | the walk processes every directory in turn and stops when one gets stuck |
| RunVariant.ProcessRepository | run.py:38-55 | `process_repository` leaves the graph and outcome `RunResult` describes |
| RunVariant.GetCommits | run.py:69-71 | every dictionary in the answer is that of a listed commit node, and every listed commit node's dictionary is in the answer |
| RunVariant.GetCommitsAppend | run.py:71 | the answer follows the listing: two stretches of it give their dictionaries one after the other |
| RunVariant.GetCommitsSnoc | run.py:71 | one more node adds its dictionary at the end when it is a commit node and nothing otherwise, so each listed commit node gives exactly one entry, in listing order |
| RunVariant.GetCommitsOfGraph | run.py:71 | over a listing of the graph, a dictionary is in the answer exactly when a commit node has it (both directions) |
| PromptScript.LineEnd | scripts/regenerate_prompt.py:29 | `.*` runs to the next line break or the end |
| PromptScript.HashCommentAt | scripts/regenerate_prompt.py:29 | the comment pattern matches at a position exactly when a '#' starts the text there or follows a whitespace character, and the match runs to the next line break, or to the end of the text, without crossing a line break |
| PromptScript.StripHashComments | scripts/regenerate_prompt.py:29 | the comment pass never lengthens the text |
| PromptScript.NoCommentUnchanged | scripts/regenerate_prompt.py:29 | text where no comment starts passes the comment pass unchanged |
| PromptScript.FirstCommentDropped | scripts/regenerate_prompt.py:29 | the text before the first comment start is kept as it is, that comment is removed up to its line break, and the pass goes on after it |
| PromptScript.KeptCharacter | scripts/regenerate_prompt.py:29 | a character where no comment starts is kept, in front of what the pass makes of the rest |
| PromptScript.CommentPassSample | scripts/regenerate_prompt.py:29 | "a #c", a line break, then "b#d" loses " #c" and keeps "b#d", whose '#' follows no whitespace |
| PromptScript.NoHashUnchanged | scripts/regenerate_prompt.py:29 | text without '#' passes the comment pass unchanged |
| PromptScript.HashCommentsGone | scripts/regenerate_prompt.py:29 | after the comment pass no '#' follows whitespace. A leading '#' is one the pass kept |
| PromptScript.CommentPassClean | scripts/regenerate_prompt.py:29 | after the comment pass no comment start is left |
| PromptScript.FindTriple | scripts/regenerate_prompt.py:32 | finds the first triple quote from a position on, or reports there is none |
| PromptScript.DocstringAt | scripts/regenerate_prompt.py:32 | a docstring match opens and closes with the same kind of triple quote, and ends at the first closing triple of that kind. `"""` is tried before `'''`. There is no match exactly when no triple opens there or it never closes |
| PromptScript.StripDocstrings | scripts/regenerate_prompt.py:32 | the docstring pass never lengthens the text |
| PromptScript.NoTripleUnchanged | scripts/regenerate_prompt.py:32 | text without triple quotes passes the docstring pass unchanged |
| PromptScript.DocstringRemoved | scripts/regenerate_prompt.py:32 | a leading docstring whose body holds no triple quote is removed, and the rest of the text is unchanged when it holds no triple quote |
| PromptScript.DocstringSample | scripts/regenerate_prompt.py:32 | a docstring "ab" in front of "x" leaves only "x" |
| PromptScript.RemoveComments | scripts/regenerate_prompt.py:24-34 | the result starts and ends with a non-space character, and is no longer than the input |
| PromptScript.PlainCodeOnlyStripped | scripts/regenerate_prompt.py:24-34 | code without '#' and triple quotes is only stripped |
| PromptScript.FileBlockLayout | scripts/regenerate_prompt.py:8-21 | a block is the header, then the body, then one line break |
| PromptScript.HeaderNamesFile | scripts/regenerate_prompt.py:13 | the header names the file by its last path component, which holds no '/' |
| PromptScript.BlockKeepsContent | scripts/regenerate_prompt.py:14-16 | read without comment removal, the block gives the content back verbatim |
| PromptScript.BlockReportsError | scripts/regenerate_prompt.py:19-20 | a read failure gives a body naming the path and ending with the error message |
| PromptScript.InsertByName | scripts/regenerate_prompt.py:77 | insertion adds exactly the entry to the multiset of entries |
| PromptScript.InsertByNameSorted | scripts/regenerate_prompt.py:77 | insertion keeps a listing sorted by name |
| PromptScript.SortByName | scripts/regenerate_prompt.py:77 | `sorted` gives a permutation of the listing, ordered by name |
| PromptScript.PyFiles | scripts/regenerate_prompt.py:78 | the filter keeps exactly the entries whose name ends in ".py" |
| PromptScript.PyFilesAppend | scripts/regenerate_prompt.py:78 | the filter works entry by entry: two stretches of a listing keep their ".py" entries one after the other, in listing order |
| PromptScript.PyFilesSnoc | scripts/regenerate_prompt.py:78 | one more entry is kept, at the end, exactly when its name ends in ".py" |
| PromptScript.PyFilesCount | scripts/regenerate_prompt.py:78 | each ".py" entry is kept exactly as often as it is listed, and no other entry is kept |
| PromptScript.PyFilesSorted | scripts/regenerate_prompt.py:77-78 | filtering keeps a sorted listing sorted |
| PromptScript.TestBlocks | scripts/regenerate_prompt.py:77-80 | one block per selected entry, in the same order: the k-th block is the k-th entry's file block |
| PromptScript.PromptEndsWithClosing | scripts/regenerate_prompt.py:85-87 | the prompt always ends with the closing request |
| PromptScript.PromptStartsWithMain | scripts/regenerate_prompt.py:68-70 | when main.py exists the prompt opens with its block |
| PromptScript.TestsInOrder | scripts/regenerate_prompt.py:75-82 | the test blocks follow the ".py" entries in sorted order, a listed entry is selected exactly when its name ends in ".py", and each selected entry occurs as often as the folder lists it (once, for a folder listing) |
| PromptScript.PromptHasEveryTest | scripts/regenerate_prompt.py:75-82 | every ".py" entry of the tests folder has its block in the prompt |
| PromptScript.CollectTestBlocks | scripts/regenerate_prompt.py:77-80 | the loop collects the blocks of the ".py" entries in listing order |
| PromptScript.Execute | scripts/regenerate_prompt.py:60-87 | `execute` builds the "\n"-join of the main.py block, the sorted test blocks and the closing request |
| Text.Split | main.py:144 | `split` gives one more part than there are separators. No part holds the separator, and the parts joined back give the text |
| Text.SplitMax | run.py:47 | `split(sep, n)` splits at most n times from the left, every part before the last is separator-free, and the parts joined back give the text |
| Text.Strip | scripts/regenerate_prompt.py:34 | `strip` removes exactly the leading and trailing whitespace |
| Text.NameLeTotal | scripts/regenerate_prompt.py:77 | code-point order on names is total |
| Text.NameLeAntisymmetric | scripts/regenerate_prompt.py:77 | code-point order on names is antisymmetric |
| Text.NameLeTransitive | scripts/regenerate_prompt.py:77 | code-point order on names is transitive |
| PosixPath.Basename | scripts/regenerate_prompt.py:13 | `basename` is the '/'-free final component of the path |
| PosixPath.AfterLastSlashUnique | scripts/regenerate_prompt.py:13 | the start of the final component is the only index with no '/' after it and a '/' (or nothing) before it |
| PosixPath.BasenameOfJoin | scripts/regenerate_prompt.py:79-80 | the header of a joined path names the joined file |
| PosixPath.Dirname | main.py:109 | `dirname` is the text before the final component, without trailing slashes. When that text is only slashes it is kept whole, so "/x" gives "/". It is empty for a bare name |
| PosixPath.DirnameOfRootEntry | main.py:109 | the dirname of "/x" is "/" |
| PosixPath.DirnameOfJoin | main.py:109 | a name joined onto a directory has that directory as its dirname |
| PosixPath.Join | run.py:53 | an absolute second argument is the result. Otherwise the second argument is appended to the first, with a '/' between them unless the first is empty or already ends in '/' |

## Left out

- The FastAPI application, the uvicorn server and the HTTP layer are left
  out. `get_commits` is modelled on the rows or nodes it reads.
- `init_db` is left out: its table definitions and SQL text. The tables are
  modelled as a map from primary key to row and a set of edge keys. A fresh
  database is the empty store (`Persistence.Store.constructor`).
- `process_repositories` is left out. It only lists `./repos` and calls
  `process_repository` on each directory that holds `.git`, and that listing
  is file-system I/O.
- Running `git log` is left out. Its output lines, or None for a failed
  call, are a parameter.
- `os.walk` is left out; its listing is a parameter. The `dirs` part is
  unused by the source. A file's content is a parameter, with None when
  `open`/`read` raises.
- The realpath/abspath computation of the project root in `execute` is left
  out; the root is a parameter. `os.path.exists` and `os.path.isdir` become
  the Option parameters of `Execute`.
- `copy_to_clipboard` and every `print` in `execute` are left out. They are
  subprocess and terminal I/O; `Execute` stops at the final prompt string.
- Exceptions are left out. They are modelled by their effect: an error
  string in `Result`, `RunOutcome.MalformedLine`, and
  `RunOutcome.NoCommitHash`, the `UnboundLocalError` when `.zig` files are
  found after an empty log.
- `add_file`'s `prev_commit` parameter is left out, since the source never
  uses it.
- The `graph=` arguments are left out. The `main.py` functions write either
  the global graph or a passed one, and in the model that is always the
  `Graph` object passed in.
- Row order is left out.
  - SQLite returns rows in an unspecified order. `load_graph_from_db` is
    stated for every order (`Loaded`).
  - `get_commits` takes the rows in the order read.
  - The order of the listing in `run.py`'s `get_commits` is a parameter.
- Persistence.SaveLoadRoundTrip: attributes come back as dictionaries that
  set all four keys, with None for a key the node did not have. So the round
  trip is stated through `.get`, not dictionary equality.
- Construction.ImportsRecorded: its own contract only covers the empty
  import set. The effect of a non-empty set is stated in
  `Construction.ImportsRecordedEffect`, to keep each proof small.
- RunVariant.ReferencesAdded: its own contract only states the node and
  edge keys. The attributes and labels are in
  `RunVariant.ReferencesAddedEffect`.
- PromptScript.StripHashComments and PromptScript.StripDocstrings: their own
  contracts only bound the length. What they remove is stated in
  `PromptScript.HashCommentsGone`, `PromptScript.NoHashUnchanged`,
  `PromptScript.NoCommentUnchanged`, `PromptScript.FirstCommentDropped`,
  `PromptScript.NoTripleUnchanged` and `PromptScript.DocstringRemoved`.
  A docstring that is not at the start is described only by
  `PromptScript.DocstringAt`, not by a lemma unfolding the pass.
- The test files under `tests/` are not modelled as members. The
  expectations they state informed the contracts, for example the header
  layout and the "Error reading" body.

# git_objects in Dafny

`git_objects.py` walks the object database of a Git repository and builds a
dictionary from object id to a nested description of that object.

- A blob is described by its content lines.
- A commit is described by its message and the resolved tree it points to.
- A tree is described by its list of entries. Every entry that is not a blob
  is expanded recursively.

The ids come from the two-level `.git/objects` directory: the name of each
first-level directory followed by the name of each entry inside it.

This project models that walk and proves what each step computes:

| file | module | models |
|---|---|---|
| `outcome.dfy` | `Outcome` | Python's `None` (`Option`), the `IndexError` the parsing can raise (`Error`, `Result`), and a loop that appends values until the first exception (`Collect`) |
| `text.dfy` | `Text` | `str.rstrip()`, `str.split(sep)` and its inverse `sep.join` |
| `object_store.dfy` | `ObjectStore` | the object store as a map from id to the kind and text `git cat-file -t` / `-p` print; `get_object_type` and `get_content_of_object` |
| `decode.dfy` | `Decode` | the parsing of one tree line and of a commit's lines |
| `resolver.dfy` | `Resolver` | `get_object`, `get_children_from_commit`, `get_children_from_tree`: specification functions plus the step-by-step methods proved equal to them |
| `scanner.dfy` | `Scanner` | `get_tree_from_objects`: the listing of the objects directory, the two nested loops filling the dictionary, and what the dictionary holds |

Exceptions are values:

- `lines[0].split(' ')[1]` on a first line without a space, and
  `split('\t')[1]` on a last field without a tab, raise `IndexError`. Both
  become `Err(IndexError(id, line))`.
- The exception propagates through every enclosing call and aborts the scan.
- The `None` that `get_object` returns for other kinds is `Ok(None)`.
- A tree entry's `children` key is an `Option<Option<Node>>`: `None` when
  the key is absent (a blob) and `Some(None)` when it holds Python's `None`.

The Python recursion has no cycle guard, and the model adds none. Every
resolver member requires instead that a ghost rank map strictly decreases
along the references a commit or tree line makes (`Resolver.Acyclic`). On an
acyclic store this holds for ranks equal to the height of each object.

The resolver and the scanner read the store through a `View`. A `View` holds
the trimmed kind and the content lines of each id. `ObjectStore.ViewAgrees`
proves that `ViewOf(store)` answers exactly as `ObjectType` and `ContentOf`
do.

Where the code and a reading of Git's formats could differ, the model follows
the code:

- A tree line is read as git prints it, `<mode> <type> <id>\t<name>`.
  - The id is the text before the first tab in the last space-separated field.
  - The label is the text after that tab, up to the next tab.
  - A name containing a space makes the line raise (`Decode.NameWithSpaceFails`).
  - The blank content of an empty tree makes the walk raise
    (`Resolver.EmptyTreeFails`).
- An id that is not in the store is not an error. `git cat-file` prints
  nothing on standard output for it, so its kind is `""` and `get_object`
  returns `None`.
- First-level directories are not filtered to two-character prefixes.
  `info` and `pack` are walked like any other directory.

## Model

| member | source | states |
|---|---|---|
| Text.Split | git_objects.py:54 | `str.split(sep)`: there is at least one piece and no piece holds the separator; with `Text.JoinSplit` and `Text.SplitJoin` these fix the pieces uniquely |
| Text.Join | git_objects.py:54 | `sep.join(parts)`: the result starts with the first piece, followed by the separator when there are more pieces |
| Text.Rstrip | git_objects.py:14 | the result is a prefix of the input, does not end in whitespace, and only whitespace was removed |
| Text.RstripUnique | git_objects.py:53 | stripping a text that does not end in whitespace, followed by any whitespace, gives back exactly that text |
| Text.JoinSplit | git_objects.py:54 | joining the pieces of `split(sep)` with `sep` gives back the text |
| Text.SplitJoin | git_objects.py:54 | splitting a join of pieces free of `sep` gives back the pieces |
| Text.SplitWithout | git_objects.py:54 | a text without the separator splits into itself alone |
| Text.SplitFirst | git_objects.py:19 | a split has a second piece exactly when the separator occurs; the text is then the first piece, the separator and the remaining pieces joined |
| Text.SplitSecond | git_objects.py:19 | the text starts with the first piece, the separator and the second piece, followed by the separator if anything follows |
| Text.SplitLast | git_objects.py:34-35 | the last piece of a split is a suffix of the text, preceded by the separator when shorter than it |
| ObjectStore.ObjectType | git_objects.py:12-14 | the kind is the printed kind minus trailing whitespace, and is empty for an id the store does not hold |
| ObjectStore.ObjectTypeOfPrintedKind | git_objects.py:12-14 | git's `<kind>\n` output trims to `<kind>` |
| ObjectStore.ContentOf | git_objects.py:51-55 | there is at least one line, no line holds a newline, and the lines joined with newlines are the printed text minus trailing whitespace |
| ObjectStore.ContentOfPrintedLines | git_objects.py:51-55 | text printed as lines joined by newlines plus a final newline, whose last line is non-empty and does not end in whitespace, reads back as exactly those lines |
| ObjectStore.BlankContent | git_objects.py:53-54 | blank printed text reads as the single empty line |
| ObjectStore.ViewAgrees | git_objects.py:12-14 | the view of the store answers each id as `get_object_type` and `get_content_of_object` do |
| Decode.LastField | git_objects.py:34-35 | `line.split(" ")[-1]` holds no space; `Decode.LastFieldIsTail` places it after the line's last space |
| Decode.ParseTreeLine | git_objects.py:34-36 | the id and label of a parsed tree line hold neither a space nor a tab; `Decode.TreeLineFields` states when a line parses and where the two fields sit |
| Decode.LastFieldIsTail | git_objects.py:34-35 | the last space-separated field of a line holds no space and is the line's suffix after its last space |
| Decode.TreeLineFields | git_objects.py:34-36 | a tree line parses exactly when its last field holds a tab; then the id is the text before the first tab and the label the text up to the next tab |
| Decode.GitTreeLineParses | git_objects.py:34-36 | a line `<mode> <type> <id>\t<name>` with a name free of spaces and tabs parses to that id and name |
| Decode.NameWithSpaceFails | git_objects.py:34-36 | the same line with a space in the name has no tab in its last field and raises |
| Decode.EmptyTreeLineFails | git_objects.py:34-36 | the empty line raises |
| Decode.ParseCommit | git_objects.py:19-20 | a commit parses only when its first line holds a space, and the tree id then holds no space; `Decode.CommitFields` states the rest |
| Decode.CommitFields | git_objects.py:19-20 | a commit parses exactly when its first line holds a space; then the tree id is the text between the first and the second space and the message is the last line |
| Decode.CommitTreeLine | git_objects.py:19-20 | a first line `tree <id>` yields that id, and the message is the last line |
| Outcome.Collect | git_objects.py:32-47 | the loop that appends one value per step and lets the first exception escape yields as many values as steps; `Outcome.CollectAlign` states which values and which exception |
| Outcome.CollectAlign | git_objects.py:32-47 | appending in a loop succeeds exactly when no step raises, and then yields every value in order; otherwise it raises the first exception |
| Outcome.CollectStops | git_objects.py:32-47 | once a step has raised, later steps do not change the outcome |
| Resolver.Resolve | git_objects.py:58-74 | a node always carries the id it was asked for and the store's trimmed kind; the result is `None` exactly when the kind is not blob, commit or tree |
| Resolver.ResolveCommit | git_objects.py:17-26 | a first line without a space raises `IndexError` on that line; otherwise the returned `id` is an id the commit refers to, its `type` is that id's kind, `parent_label` is the commit's last line, and `children` is what `get_object` gives for that id |
| Resolver.ResolveEntry | git_objects.py:33-47 | a line without a tab in its last field raises on that line; a built child carries the line's id and label, that id's kind, and a `children` key exactly when the kind is not blob |
| Resolver.EntryResults | git_objects.py:32-47 | one pass of the loop per content line, in the order of the lines; `Resolver.EntryOfLine` and `Resolver.TreeResolution` state what each pass and the whole loop yield |
| Resolver.EntryOfLine | git_objects.py:33-47 | a pass succeeds exactly when its line raises nothing, raises that line's exception otherwise, and builds the child the line describes |
| Resolver.BlobResolution | git_objects.py:59-63 | a blob's node is its content lines, which join back into the printed text minus trailing whitespace |
| Resolver.CommitResolution | git_objects.py:17-26 | a commit raises on a first line without a space; otherwise it raises exactly when its tree does, and its node holds the last line as label and the resolved tree as children |
| Resolver.TreeResolution | git_objects.py:29-48 | a tree succeeds exactly when no line raises; its children then match its lines one to one and in order, each with the line's id and label and the id's kind, and with a resolved `children` exactly when that kind is not blob; otherwise it raises the first line's exception |
| Resolver.EmptyLineTreeFails | git_objects.py:33-36 | a tree whose content is the single empty line raises on it |
| Resolver.EmptyTreeFails | git_objects.py:51-54 | a tree whose printed text is blank raises on its single empty line |
| Resolver.GetObject | git_objects.py:58-74 | the step-by-step `get_object` computes `Resolve` |
| Resolver.GetChildrenFromCommit | git_objects.py:17-26 | the step-by-step commit helper computes the commit's tree id, that id's kind, the message and the resolved tree, as `ResolveCommit` states them |
| Resolver.GetChildrenFromTree | git_objects.py:29-48 | the loop over the tree's lines computes the collected results of its entries |
| Scanner.ScannedIds | git_objects.py:80-85 | the ids the two loops visit; `Scanner.ScannedIdsSound` and `Scanner.ScannedIdsComplete` state that they are exactly the directory-plus-entry names |
| Scanner.ScannedIdsSound | git_objects.py:81-85 | every visited id is a directory's name followed by the name of one of its entries, so entries that are not directories contribute no id |
| Scanner.ScannedIdsComplete | git_objects.py:81-85 | every entry of every directory is visited under the directory's name followed by the entry's name, with no filter on the directory's name |
| Scanner.Assign | git_objects.py:86-87 | filling the dictionary key by key; `Scanner.AssignContents` and `Scanner.AssignFirstError` state what it holds or raises |
| Scanner.AssignContents | git_objects.py:87 | a filled dictionary maps exactly the assigned keys, each to the value of the last position that assigned it |
| Scanner.AssignFirstError | git_objects.py:86-87 | a failed filling raises the exception of the first failing position |
| Scanner.ScanIds | git_objects.py:84-87 | the filling of the dictionary with `get_object` of each visited id; `Scanner.ScanIdsResult` states its outcome |
| Scanner.Scan | git_objects.py:77-89 | `get_tree_from_objects` on a listing; `Scanner.ScanKeys` states its keys and values |
| Scanner.ScanIdsResult | git_objects.py:84-87 | the walk succeeds exactly when every visited id resolves; it then maps exactly those ids, each to its node; otherwise it raises the first failing id's exception |
| Scanner.ScanKeys | git_objects.py:77-89 | a completed scan maps exactly the directory-plus-entry names, each to the node `get_object` gives for it |
| Scanner.ScanKeepsError | git_objects.py:86 | once an id has raised, the ids after it do not change the outcome |
| Scanner.EmptyScan | git_objects.py:77-89 | a listing whose directories are all empty yields the empty dictionary |
| Scanner.ScanDirectory | git_objects.py:83-87 | the inner loop extends the dictionary exactly as the walk over the directory's ids does |
| Scanner.GetTreeFromObjects | git_objects.py:77-89 | the nested loops compute the scan of the listing |

## Left out

- Running `git cat-file -t` and `git cat-file -p` and decoding the output as UTF-8 (git_objects.py:13, 52-53) are process calls. The store is a map from id to the kind text and the content text git would print.
- `os.scandir` and `is_dir` (git_objects.py:80-83) are filesystem calls. The listing is a given sequence of `DirEntry` records: a name, whether it is a directory, and the names inside it, in listing order.
- The command line (`argparse`), `json.dumps` and `print_output` (git_objects.py:92-113) are output glue. So are the global `base_path`, `objects_path`, the unused `branches_path` and `get_file_content` (git_objects.py:7-9, 105-108).
- Resolver.Resolve: every resolver and scanner member requires `Acyclic`, which asks that no reference made by any commit or tree line of the store closes a cycle. This excludes the cyclic graphs on which the Python recursion ends in `RecursionError`. It also excludes stores on which Python stops: a cycle that no listed id reaches, and a cycle behind a line that raises first (a tree whose first line has no tab and whose second line names the tree itself raises `IndexError` in Python). The model says nothing about such stores.
- Python's recursion depth limit on deep but acyclic graphs is not modelled.
- The dictionary's insertion order, which `json.dumps` would print, is not modelled: the dictionary is a Dafny `map`.
- A store that cannot be read and text that is not valid UTF-8 are not modelled: `git cat-file` is assumed to answer every id.

/** `get_object` and its two helpers: turning an object id into the nested
    node the walker prints. The functions below state what each call
    computes; the methods after them follow the Python code step by step
    and are proved to compute exactly that. Both ask the store through a
    `View`, which answers as `get_object_type` and `get_content_of_object`. */
module Resolver {
  import opened Text
  import opened Outcome
  import opened ObjectStore
  import opened Decode

  /** The dictionary `get_object` returns. Its `type` key is `Kind()`, which
      is always the object's trimmed kind. A commit's `label` key is
      `message` (`label` is a Dafny keyword) and its `children` key is
      `tree`, which is `None` when the tree id resolves to Python's None. */
  datatype Node =
    | Blob(id: ObjectId, content: seq<string>)
    | Commit(id: ObjectId, message: string, tree: Option<Node>)
    | Tree(id: ObjectId, children: seq<Child>)
  {
    function Kind(): string {
      match this
      case Blob(_, _) => "blob"
      case Commit(_, _, _) => "commit"
      case Tree(_, _) => "tree"
    }
  }

  /** One element of a tree node's `children` list: the entry's `type`,
      `id` and `label` (here `name`, as `label` is a Dafny keyword). `expansion` is `None` when the
      dictionary has no `children` key, and `Some(n)` when that key holds
      `n`, which is `None` when the entry's object resolves to Python's None. */
  datatype Child = Child(kind: string, id: ObjectId, name: string, expansion: Option<Option<Node>>)

  /** The dictionary `get_children_from_commit` returns; `parentLabel` is
      its `parent_label` key. */
  datatype CommitLink = CommitLink(id: ObjectId, kind: string, parentLabel: string, children: Option<Node>)

  /** `id` names `r` in the content the walker decodes for it: the tree of
      a commit, or the id on one of a tree's lines. */
  ghost predicate RefersTo(v: View, id: ObjectId, r: ObjectId) {
    var lines := LinesIn(v, id);
    (TypeIn(v, id) == "commit" && ParseCommit(lines).Some? && ParseCommit(lines).value.treeId == r)
    || (TypeIn(v, id) == "tree"
        && exists k :: 0 <= k < |lines| && ParseTreeLine(lines[k]).Some? && ParseTreeLine(lines[k]).value.id == r)
  }

  /** How far the walk from `id` may descend under `rank`. */
  ghost function Height(rank: map<ObjectId, nat>, id: ObjectId): nat {
    if id in rank then rank[id] + 1 else 0
  }

  /** The references between objects never lead back: `rank` drops along
      each of them. This is what makes the walk terminate; the Python code
      has no guard and recurses without end on a cycle. */
  ghost predicate Acyclic(v: View, rank: map<ObjectId, nat>) {
    forall id, r :: RefersTo(v, id, r) ==> Height(rank, r) < Height(rank, id)
  }

  /** `get_object(id)`: `Ok(None)` is Python's None, returned for a kind
      other than blob, commit and tree (an unknown object has the empty
      kind); `Err` is the exception that escapes. */
  function Resolve(v: View, id: ObjectId, ghost rank: map<ObjectId, nat>): (r: Result<Option<Node>>)
    requires Acyclic(v, rank)
    ensures r.Ok? && r.value.Some? ==> r.value.value.id == id && r.value.value.Kind() == TypeIn(v, id)
    ensures r == Ok(None) <==> TypeIn(v, id) !in {"blob", "commit", "tree"}
    decreases Height(rank, id), 2
  {
    var kind := TypeIn(v, id);
    if kind == "blob" then
      Ok(Some(Blob(id, LinesIn(v, id))))
    else if kind == "commit" then
      match ResolveCommit(v, id, rank)
      case Err(e) => Err(e)
      case Ok(link) => Ok(Some(Commit(id, link.parentLabel, link.children)))
    else if kind == "tree" then
      match Collect(EntryResults(v, id, rank))
      case Err(e) => Err(e)
      case Ok(children) => Ok(Some(Tree(id, children)))
    else
      Ok(None)
  }

  /** `get_children_from_commit(id)`. */
  function ResolveCommit(v: View, id: ObjectId, ghost rank: map<ObjectId, nat>): (r: Result<CommitLink>)
    requires Acyclic(v, rank) && TypeIn(v, id) == "commit"
    ensures ParseCommit(LinesIn(v, id)).None? ==> r == Err(IndexError(id, LinesIn(v, id)[0]))
    ensures r.Ok? ==> RefersTo(v, id, r.value.id) && r.value.kind == TypeIn(v, r.value.id)
                      && r.value.parentLabel == LinesIn(v, id)[|LinesIn(v, id)| - 1]
                      && Resolve(v, r.value.id, rank) == Ok(r.value.children)
    decreases Height(rank, id), 1
  {
    var lines := LinesIn(v, id);
    match ParseCommit(lines)
    case None => Err(IndexError(id, lines[0]))
    case Some(info) =>
      assert RefersTo(v, id, info.treeId);
      match Resolve(v, info.treeId, rank)
      case Err(e) => Err(e)
      case Ok(tree) => Ok(CommitLink(info.treeId, TypeIn(v, info.treeId), info.message, tree))
  }

  /** One pass of the loop in `get_children_from_tree`, over line `k` of
      the tree `tree`. */
  function ResolveEntry(v: View, tree: ObjectId, k: nat, ghost rank: map<ObjectId, nat>): (r: Result<Child>)
    requires Acyclic(v, rank) && TypeIn(v, tree) == "tree" && k < |LinesIn(v, tree)|
    ensures ParseTreeLine(LinesIn(v, tree)[k]).None? ==> r == Err(IndexError(tree, LinesIn(v, tree)[k]))
    ensures r.Ok? ==> ParseTreeLine(LinesIn(v, tree)[k]) == Some(TreeLine(r.value.id, r.value.name))
                      && r.value.kind == TypeIn(v, r.value.id)
                      && (r.value.expansion.Some? <==> r.value.kind != "blob")
    decreases Height(rank, tree), 0
  {
    var line := LinesIn(v, tree)[k];
    match ParseTreeLine(line)
    case None => Err(IndexError(tree, line))
    case Some(t) =>
      var kind := TypeIn(v, t.id);
      if kind == "blob" then
        Ok(Child(kind, t.id, t.name, None))
      else
        assert RefersTo(v, tree, t.id);
        match Resolve(v, t.id, rank)
        case Err(e) => Err(e)
        case Ok(node) => Ok(Child(kind, t.id, t.name, Some(node)))
  }

  /** What each pass of the loop in `get_children_from_tree` yields, one
      per content line of the tree `tree`. */
  function EntryResults(v: View, tree: ObjectId, ghost rank: map<ObjectId, nat>): (rs: seq<Result<Child>>)
    requires Acyclic(v, rank) && TypeIn(v, tree) == "tree"
    ensures |rs| == |LinesIn(v, tree)|
    ensures forall k :: 0 <= k < |rs| ==> rs[k] == ResolveEntry(v, tree, k, rank)
    decreases Height(rank, tree), 1
  {
    seq(|LinesIn(v, tree)|, k requires 0 <= k < |LinesIn(v, tree)| => ResolveEntry(v, tree, k, rank))
  }

  /** What `get_children_from_tree` builds for one line `line` as the
      child `c`: the id and label come from the line, the type is the
      referenced object's, and a `children` key holding that object's
      resolved node is present exactly when the type is not blob. */
  ghost predicate ChildOfLine(v: View, line: string, c: Child, rank: map<ObjectId, nat>)
    requires Acyclic(v, rank)
  {
    ParseTreeLine(line) == Some(TreeLine(c.id, c.name))
    && c.kind == TypeIn(v, c.id)
    && (c.expansion.Some? <==> c.kind != "blob")
    && (c.expansion.Some? ==> Resolve(v, c.id, rank) == Ok(c.expansion.value))
  }

  /** The exception, if any, that the loop of `get_children_from_tree`
      raises on the line `line` of the tree `tree`. */
  ghost function LineError(v: View, tree: ObjectId, line: string, rank: map<ObjectId, nat>): Option<Error>
    requires Acyclic(v, rank)
  {
    match ParseTreeLine(line)
    case None => Some(IndexError(tree, line))
    case Some(t) =>
      if TypeIn(v, t.id) != "blob" && Resolve(v, t.id, rank).Err?
      then Some(Resolve(v, t.id, rank).error) else None
  }

  /** Line `k` of the tree `id` is the first of its lines to raise, and
      raises `e`. */
  ghost predicate FirstLineError(v: View, id: ObjectId, k: nat, e: Error, rank: map<ObjectId, nat>)
    requires Acyclic(v, rank)
  {
    var lines := LinesIn(v, id);
    k < |lines| && LineError(v, id, lines[k], rank) == Some(e)
    && forall j :: 0 <= j < k ==> LineError(v, id, lines[j], rank).None?
  }

  /** One pass of the loop over the tree's lines succeeds exactly when its
      line raises nothing, and then builds the child that line describes. */
  lemma EntryOfLine(v: View, id: ObjectId, k: nat, rank: map<ObjectId, nat>)
    requires Acyclic(v, rank) && TypeIn(v, id) == "tree" && k < |LinesIn(v, id)|
    ensures var line := LinesIn(v, id)[k]; var e := ResolveEntry(v, id, k, rank);
      (e.Ok? <==> LineError(v, id, line, rank).None?)
      && (e.Err? ==> LineError(v, id, line, rank) == Some(e.error))
      && (e.Ok? ==> ChildOfLine(v, line, e.value, rank))
  {
  }

  /** A tree resolves to a node whose children correspond one to one, in
      order, to the lines of its content; it fails with the exception of
      its first line that raises one. */
  lemma TreeResolution(v: View, id: ObjectId, rank: map<ObjectId, nat>)
    requires Acyclic(v, rank) && TypeIn(v, id) == "tree"
    ensures var lines := LinesIn(v, id); var r := Resolve(v, id, rank);
      (r.Ok? <==> forall k :: 0 <= k < |lines| ==> LineError(v, id, lines[k], rank).None?)
      && (r.Ok? ==> r.value.Some? && r.value.value.Tree? && |r.value.value.children| == |lines|
                    && forall k :: 0 <= k < |lines| ==> ChildOfLine(v, lines[k], r.value.value.children[k], rank))
      && (r.Err? ==> exists k :: FirstLineError(v, id, k, r.error, rank))
  {
    var lines := LinesIn(v, id);
    var n := |lines|;
    var rs := EntryResults(v, id, rank);
    CollectAlign(rs);
    forall k | 0 <= k < n
      ensures ResolveEntry(v, id, k, rank).Ok? <==> LineError(v, id, lines[k], rank).None?
      ensures ResolveEntry(v, id, k, rank).Err? ==>
                LineError(v, id, lines[k], rank) == Some(ResolveEntry(v, id, k, rank).error)
      ensures ResolveEntry(v, id, k, rank).Ok? ==>
                ChildOfLine(v, lines[k], ResolveEntry(v, id, k, rank).value, rank)
    {
      EntryOfLine(v, id, k, rank);
    }
    var r := Resolve(v, id, rank);
    if r.Err? {
      var k :| FirstErr(rs, k, r.error);
      assert FirstLineError(v, id, k, r.error, rank);
    }
  }

  /** A commit resolves to a node labelled with its last content line whose
      `children` is the resolved node of the second field of its first
      line; the `id` and `type` that `get_children_from_commit` computes for
      that tree are dropped. A first line without a space raises. */
  lemma CommitResolution(v: View, id: ObjectId, rank: map<ObjectId, nat>)
    requires Acyclic(v, rank) && TypeIn(v, id) == "commit"
    ensures var lines := LinesIn(v, id); var r := Resolve(v, id, rank);
      (' ' !in lines[0] ==> r == Err(IndexError(id, lines[0])))
      && (' ' in lines[0] ==>
            |Split(lines[0], ' ')| >= 2
            && var tree := Resolve(v, Split(lines[0], ' ')[1], rank);
            (r.Err? <==> tree.Err?)
            && (r.Err? ==> r.error == tree.error)
            && (r.Ok? ==> r.value == Some(Commit(id, lines[|lines| - 1], tree.value))))
  {
    CommitFields(LinesIn(v, id));
  }

  /** A blob resolves to its content lines, which join back into the text
      git prints for it without its trailing whitespace. */
  lemma BlobResolution(store: Store, id: ObjectId, rank: map<ObjectId, nat>)
    requires Acyclic(ViewOf(store), rank) && ObjectType(store, id) == "blob"
    ensures var r := Resolve(ViewOf(store), id, rank);
      r == Ok(Some(Blob(id, ContentOf(store, id))))
      && Join(r.value.value.content, '\n') == Rstrip(RawText(store, id))
  {
    ViewAgrees(store, id);
  }

  /** A tree whose content is a single empty line makes the walk raise on
      that line. */
  lemma EmptyLineTreeFails(v: View, id: ObjectId, rank: map<ObjectId, nat>)
    requires Acyclic(v, rank) && TypeIn(v, id) == "tree" && LinesIn(v, id) == [""]
    ensures Resolve(v, id, rank) == Err(IndexError(id, ""))
  {
    EmptyTreeLineFails();
    var rs := EntryResults(v, id, rank);
    assert rs[0] == Err(IndexError(id, ""));
    assert rs[..|rs| - 1] == [];
    assert Collect(rs[..|rs| - 1]) == Ok([]);
  }

  /** A tree whose printed content is blank, as git prints the empty tree,
      makes the walk raise on its single empty line. */
  lemma EmptyTreeFails(store: Store, id: ObjectId, rank: map<ObjectId, nat>)
    requires Acyclic(ViewOf(store), rank) && ObjectType(store, id) == "tree"
    requires AllSpace(RawText(store, id))
    ensures Resolve(ViewOf(store), id, rank) == Err(IndexError(id, ""))
  {
    ViewAgrees(store, id);
    BlankContent(store, id);
    EmptyLineTreeFails(ViewOf(store), id, rank);
  }

  /** `get_object(id)`, step by step. */
  method GetObject(v: View, id: ObjectId, ghost rank: map<ObjectId, nat>) returns (r: Result<Option<Node>>)
    requires Acyclic(v, rank)
    ensures r == Resolve(v, id, rank)
    decreases Height(rank, id), 2
  {
    var kind := TypeIn(v, id);
    if kind == "blob" {
      return Ok(Some(Blob(id, LinesIn(v, id))));
    }
    if kind == "commit" {
      var link := GetChildrenFromCommit(v, id, rank);
      if link.Err? {
        return Err(link.error);
      }
      return Ok(Some(Commit(id, link.value.parentLabel, link.value.children)));
    }
    if kind == "tree" {
      var children := GetChildrenFromTree(v, id, rank);
      if children.Err? {
        return Err(children.error);
      }
      return Ok(Some(Tree(id, children.value)));
    }
    return Ok(None);
  }

  /** `get_children_from_commit(id)`, step by step. */
  method GetChildrenFromCommit(v: View, id: ObjectId, ghost rank: map<ObjectId, nat>) returns (r: Result<CommitLink>)
    requires Acyclic(v, rank) && TypeIn(v, id) == "commit"
    ensures r == ResolveCommit(v, id, rank)
    decreases Height(rank, id), 1
  {
    var lines := LinesIn(v, id);
    var info := ParseCommit(lines);
    if info.None? {
      return Err(IndexError(id, lines[0]));
    }
    var sha := info.value.treeId;
    assert RefersTo(v, id, sha);
    var kind := TypeIn(v, sha);
    var tree := GetObject(v, sha, rank);
    if tree.Err? {
      return Err(tree.error);
    }
    return Ok(CommitLink(sha, kind, info.value.message, tree.value));
  }

  /** `get_children_from_tree(id)`: the loop appending one child per line. */
  method GetChildrenFromTree(v: View, id: ObjectId, ghost rank: map<ObjectId, nat>) returns (r: Result<seq<Child>>)
    requires Acyclic(v, rank) && TypeIn(v, id) == "tree"
    ensures r == Collect(EntryResults(v, id, rank))
    decreases Height(rank, id), 1
  {
    var lines := LinesIn(v, id);
    ghost var rs := EntryResults(v, id, rank);
    var result: seq<Child> := [];
    for i := 0 to |lines|
      invariant Collect(rs[..i]) == Ok(result)
    {
      CollectStep(rs, i);
      var parsed := ParseTreeLine(lines[i]);
      if parsed.None? {
        CollectStops(rs, i + 1);
        return Err(IndexError(id, lines[i]));
      }
      var sha := parsed.value.id;
      var kind := TypeIn(v, sha);
      var expansion: Option<Option<Node>> := None;
      if kind != "blob" {
        assert RefersTo(v, id, sha);
        var sub := GetObject(v, sha, rank);
        if sub.Err? {
          CollectStops(rs, i + 1);
          return Err(sub.error);
        }
        expansion := Some(sub.value);
      }
      result := result + [Child(kind, sha, parsed.value.name, expansion)];
    }
    assert rs[..|lines|] == rs;
    return Ok(result);
  }
}

/** The repository's object store as the walker sees it through
    `git cat-file -t` (an object's kind) and `git cat-file -p` (its printed
    content), both already decoded to text. */
module ObjectStore {
  import opened Text

  type ObjectId = string

  /** What `git cat-file` prints for one object: `kind` is the standard
      output of `-t` (such as "tree\n"), `text` that of `-p`. */
  datatype RawObject = RawObject(kind: string, text: string)

  /** The object database: every object id git can show, with its output. */
  type Store = map<ObjectId, RawObject>

  /** Standard output of `git cat-file -t id`: empty when git knows no such
      object (git then reports on standard error only). */
  function RawKind(store: Store, id: ObjectId): string {
    if id in store then store[id].kind else ""
  }

  /** Standard output of `git cat-file -p id`, empty for an unknown object. */
  function RawText(store: Store, id: ObjectId): string {
    if id in store then store[id].text else ""
  }

  /** `get_object_type`: the kind git prints, trailing whitespace removed. */
  function ObjectType(store: Store, id: ObjectId): (kind: string)
    ensures id !in store ==> kind == ""
    ensures kind <= RawKind(store, id) && AllSpace(RawKind(store, id)[|kind|..])
    ensures kind == [] || !IsSpace(kind[|kind| - 1])
  {
    Rstrip(RawKind(store, id))
  }

  /** `get_content_of_object`: the printed content, trailing whitespace
      removed, split into lines. There is always at least one line, no line
      holds a newline, and joining the lines with newlines restores the
      stripped text. */
  function ContentOf(store: Store, id: ObjectId): (lines: seq<string>)
    ensures |lines| >= 1
    ensures forall k :: 0 <= k < |lines| ==> '\n' !in lines[k]
    ensures Join(lines, '\n') == Rstrip(RawText(store, id))
  {
    JoinSplit(Rstrip(RawText(store, id)), '\n');
    Split(Rstrip(RawText(store, id)), '\n')
  }

  /** git terminates the kind it prints with a newline; `get_object_type`
      gives back the bare kind. */
  lemma {:induction false} ObjectTypeOfPrintedKind(store: Store, id: ObjectId, kind: string)
    requires id in store && store[id].kind == kind + "\n"
    requires kind == [] || !IsSpace(kind[|kind| - 1])
    ensures ObjectType(store, id) == kind
  {
    RstripUnique(kind, "\n");
  }

  /** Printed content made of newline-terminated lines, the last of which
      does not end in whitespace, comes back as exactly those lines. */
  lemma {:induction false} ContentOfPrintedLines(store: Store, id: ObjectId, lines: seq<string>)
    requires id in store && |lines| >= 1
    requires forall k :: 0 <= k < |lines| ==> '\n' !in lines[k]
    requires var last := lines[|lines| - 1]; last != [] && !IsSpace(last[|last| - 1])
    requires store[id].text == Join(lines, '\n') + "\n"
    ensures ContentOf(store, id) == lines
  {
    JoinLast(lines, '\n');
    RstripUnique(Join(lines, '\n'), "\n");
    SplitJoin(lines, '\n');
  }

  /** The store as the walker sees it: for every object git knows, what
      `get_object_type` and `get_content_of_object` return for it. */
  datatype View = View(kinds: map<ObjectId, string>, contents: map<ObjectId, seq<string>>)

  /** `get_object_type(id)` asked of a view. */
  function TypeIn(v: View, id: ObjectId): string {
    if id in v.kinds then v.kinds[id] else ""
  }

  /** `get_content_of_object(id)` asked of a view: always at least one line. */
  function LinesIn(v: View, id: ObjectId): (lines: seq<string>)
    ensures |lines| >= 1
  {
    if id in v.contents && |v.contents[id]| >= 1 then v.contents[id] else [""]
  }

  /** The view of a store. */
  function ViewOf(store: Store): View {
    View(map id | id in store :: ObjectType(store, id), map id | id in store :: ContentOf(store, id))
  }

  /** The view of a store answers every id, known or not, as the two helper
      functions do. */
  lemma ViewAgrees(store: Store, id: ObjectId)
    ensures TypeIn(ViewOf(store), id) == ObjectType(store, id)
    ensures LinesIn(ViewOf(store), id) == ContentOf(store, id)
  {
    if id !in store {
      assert Rstrip("") == "";
      assert Split("", '\n') == [""];
    }
  }

  /** Blank printed content, as git prints it for the empty tree, is one
      empty line. */
  lemma BlankContent(store: Store, id: ObjectId)
    requires AllSpace(RawText(store, id))
    ensures ContentOf(store, id) == [""]
  {
    RstripUnique("", RawText(store, id));
    assert "" + RawText(store, id) == RawText(store, id);
    SplitWithout("", '\n');
  }
}

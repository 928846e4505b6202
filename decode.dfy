/** Decoding of the lines `git cat-file -p` prints for trees and commits,
    as `get_children_from_tree` and `get_children_from_commit` do it. */
module Decode {
  import opened Text
  import opened Outcome

  /** What the walker keeps of one tree line: the object id and the entry name,
      which it shows as the `label`. */
  datatype TreeLine = TreeLine(id: string, name: string)

  /** What the walker keeps of a commit: the tree it points to and the
      message it shows. */
  datatype CommitInfo = CommitInfo(treeId: string, message: string)

  /** The last field of `line.split(" ")`. */
  function LastField(line: string): (f: string)
    ensures ' ' !in f
  {
    var fields := Split(line, ' ');
    fields[|fields| - 1]
  }

  /** The last field of a line is what follows its last space. */
  lemma LastFieldIsTail(line: string)
    ensures var f := LastField(line);
      |f| <= |line| && line[|line| - |f|..] == f
      && (|f| < |line| ==> line[|line| - |f| - 1] == ' ')
  {
    SplitLast(line, ' ');
  }

  /** One tree line: the last space-separated field, split on tabs, gives
      the id (piece 0) and the label (piece 1); a field without a tab has no
      piece 1 and Python raises `IndexError`, here `None`. Neither the id nor
      the label holds a space or a tab. */
  function ParseTreeLine(line: string): (r: Option<TreeLine>)
    ensures r.Some? ==> ' ' !in r.value.id && '\t' !in r.value.id && ' ' !in r.value.name && '\t' !in r.value.name
  {
    var f := LastField(line);
    var pieces := Split(f, '\t');
    SplitKeepsAbsent(f, '\t', ' ');
    if |pieces| < 2 then None else Some(TreeLine(pieces[0], pieces[1]))
  }

  /** A tree line parses exactly when its last field holds a tab. The id is
      then the text of that field before its first tab, and the label the
      text after that tab up to the next tab or the end. */
  lemma TreeLineFields(line: string)
    ensures ParseTreeLine(line).Some? <==> '\t' in LastField(line)
    ensures ParseTreeLine(line).Some? ==>
      var t := ParseTreeLine(line).value; var f := LastField(line);
      ' ' !in t.id && '\t' !in t.id && ' ' !in t.name && '\t' !in t.name
      && t.id + "\t" + t.name <= f
      && (|t.id| + 1 + |t.name| < |f| ==> f[|t.id| + 1 + |t.name|] == '\t')
  {
    var f := LastField(line);
    SplitFirst(f, '\t');
    if '\t' in f {
      var p := Split(f, '\t');
      SplitSecond(f, '\t');
      SplitKeepsAbsent(f, '\t', ' ');
      assert ' ' !in p[0] && ' ' !in p[1];
    }
  }

  /** The line git prints for one tree entry: `<mode> <type> <id>\t<name>`. */
  function GitTreeLine(mode: string, kind: string, id: string, name: string): string {
    mode + " " + kind + " " + id + "\t" + name
  }

  /** An entry whose fields hold neither spaces nor tabs parses back into its
      id and name. */
  lemma {:induction false} GitTreeLineParses(mode: string, kind: string, id: string, name: string)
    requires ' ' !in mode && ' ' !in kind && ' ' !in id && '\t' !in id
    requires ' ' !in name && '\t' !in name
    ensures ParseTreeLine(GitTreeLine(mode, kind, id, name)) == Some(TreeLine(id, name))
  {
    var tail := id + "\t" + name;
    assert ' ' !in tail;
    assert GitTreeLine(mode, kind, id, name) == mode + " " + kind + " " + tail;
    LastOfSpaced(mode, kind, tail);
    assert tail == id + ['\t'] + name;
    SplitAround(id, name, '\t');
    SplitWithout(name, '\t');
  }

  /** An entry whose name holds a space makes the parse fail: the last
      space-separated field is then the end of the name, which has no tab. */
  lemma {:induction false} NameWithSpaceFails(mode: string, kind: string, id: string, name: string)
    requires ' ' !in mode && ' ' !in kind && ' ' !in id && '\t' !in id
    requires ' ' in name && '\t' !in name
    ensures ParseTreeLine(GitTreeLine(mode, kind, id, name)) == None
  {
    var line := GitTreeLine(mode, kind, id, name);
    var f := LastField(line);
    LastFieldIsTail(line);
    var k :| 0 <= k < |name| && name[k] == ' ';
    // The tail after the last space lies inside the name, which has no tab.
    var space := |line| - |name| + k;
    assert line[space] == ' ';
    assert forall i :: |line| - |f| <= i < |line| ==> line[i] == f[i - (|line| - |f|)];
    assert space < |line| - |f|;
    assert f == name[|name| - |f|..];
    assert '\t' !in f;
    SplitWithout(f, '\t');
  }

  /** The single empty line of an empty tree's content does not parse. */
  lemma EmptyTreeLineFails()
    ensures ParseTreeLine("") == None
  {
    SplitWithout("", ' ');
    SplitWithout("", '\t');
  }

  /** A commit's content: the tree id is the second space-separated field of
      the first line (Python raises `IndexError` when there is none, here
      `None`), the message is the last line. */
  function ParseCommit(lines: seq<string>): (r: Option<CommitInfo>)
    requires |lines| >= 1
    ensures r.Some? ==> ' ' in lines[0] && ' ' !in r.value.treeId
  {
    var fields := Split(lines[0], ' ');
    SplitFirst(lines[0], ' ');
    if |fields| < 2 then None else Some(CommitInfo(fields[1], lines[|lines| - 1]))
  }

  /** A commit parses exactly when its first line holds a space. The tree id
      is then the text after the first space up to the next space or the end,
      and the message is the last line. */
  lemma CommitFields(lines: seq<string>)
    requires |lines| >= 1
    ensures ParseCommit(lines).Some? <==> ' ' in lines[0]
    ensures ParseCommit(lines).Some? ==>
      var c := ParseCommit(lines).value; var head := Split(lines[0], ' ')[0];
      ' ' !in head && ' ' !in c.treeId
      && head + " " + c.treeId <= lines[0]
      && (|head| + 1 + |c.treeId| < |lines[0]| ==> lines[0][|head| + 1 + |c.treeId|] == ' ')
      && c.message == lines[|lines| - 1]
  {
    SplitFirst(lines[0], ' ');
    if ' ' in lines[0] {
      SplitSecond(lines[0], ' ');
    }
  }

  /** A commit printed by git starts with `tree <id>`; the walker takes that id. */
  lemma {:induction false} CommitTreeLine(lines: seq<string>, treeId: string)
    requires |lines| >= 1 && lines[0] == "tree " + treeId && ' ' !in treeId
    ensures ParseCommit(lines) == Some(CommitInfo(treeId, lines[|lines| - 1]))
  {
    assert lines[0] == "tree" + [' '] + treeId;
    SplitAround("tree", treeId, ' ');
    SplitWithout(treeId, ' ');
  }

  /** The last field of `a b c` is `c` when none of them holds a space. */
  lemma {:induction false} LastOfSpaced(a: string, b: string, c: string)
    requires ' ' !in a && ' ' !in b && ' ' !in c
    ensures LastField(a + " " + b + " " + c) == c
  {
    assert a + " " + b + " " + c == a + [' '] + (b + [' '] + c);
    SplitAround(a, b + [' '] + c, ' ');
    SplitAround(b, c, ' ');
    SplitWithout(c, ' ');
  }
}

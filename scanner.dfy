/** `get_tree_from_objects`: walking the two levels of the objects
    directory, resolving every file found there as an object id, and
    collecting the resolved nodes in a dictionary keyed by id. */
module Scanner {
  import opened Outcome
  import opened ObjectStore
  import opened Resolver

  /** One entry of the objects directory as `os.scandir` yields it: its
      name, whether it is a directory and, if it is, the names of the
      entries inside it in the order they are listed. */
  datatype DirEntry = DirEntry(name: string, isDir: bool, children: seq<string>)

  /** The ids the directory `dir` contributes for its entries `entries`:
      the directory's name followed by each entry's name, in order. */
  function EntryIds(dir: string, entries: seq<string>): (ids: seq<ObjectId>)
    ensures |ids| == |entries|
    decreases |entries|
  {
    if entries == [] then []
    else EntryIds(dir, entries[..|entries| - 1]) + [dir + entries[|entries| - 1]]
  }

  /** The ids one entry of the listing contributes: none unless it is a
      directory. */
  function IdsOf(d: DirEntry): seq<ObjectId> {
    if d.isDir then EntryIds(d.name, d.children) else []
  }

  /** The ids the two loops visit, in order, for the listing `listing`. */
  function ScannedIds(listing: seq<DirEntry>): seq<ObjectId>
    decreases |listing|
  {
    if listing == [] then []
    else ScannedIds(listing[..|listing| - 1]) + IdsOf(listing[|listing| - 1])
  }

  /** Assigning `results[k]` to `keys[k]` in order, as the loops of
      `get_tree_from_objects` fill the dictionary, with the first exception
      escaping. */
  function Assign<V>(keys: seq<ObjectId>, results: seq<Result<V>>): Result<map<ObjectId, V>>
    requires |keys| == |results|
    decreases |keys|
  {
    if keys == [] then Ok(map[])
    else
      match Assign(keys[..|keys| - 1], results[..|results| - 1])
      case Err(e) => Err(e)
      case Ok(m) =>
        match results[|results| - 1]
        case Err(e) => Err(e)
        case Ok(x) => Ok(m[keys[|keys| - 1] := x])
  }

  /** What `get_object` gives for each of the ids `ids`, in order. */
  function Results(v: View, ids: seq<ObjectId>, ghost rank: map<ObjectId, nat>): (rs: seq<Result<Option<Node>>>)
    requires Acyclic(v, rank)
    ensures |rs| == |ids|
  {
    seq(|ids|, k requires 0 <= k < |ids| => Resolve(v, ids[k], rank))
  }

  /** The loops of `get_tree_from_objects` over the visited ids `ids`. */
  function ScanIds(v: View, ids: seq<ObjectId>, ghost rank: map<ObjectId, nat>): Result<map<ObjectId, Option<Node>>>
    requires Acyclic(v, rank)
  {
    Assign(ids, Results(v, ids, rank))
  }

  /** `get_tree_from_objects` on the listing `listing`. */
  function Scan(v: View, listing: seq<DirEntry>, ghost rank: map<ObjectId, nat>): Result<map<ObjectId, Option<Node>>>
    requires Acyclic(v, rank)
  {
    ScanIds(v, ScannedIds(listing), rank)
  }

  /** The ids visited for a prefix of the listing come first. */
  lemma {:induction false} ScannedIdsPrefix(listing: seq<DirEntry>, i: nat)
    requires i <= |listing|
    ensures ScannedIds(listing[..i]) <= ScannedIds(listing)
    decreases |listing| - i
  {
    if i < |listing| {
      ScannedIdsPrefix(listing, i + 1);
      assert listing[..i + 1][..i] == listing[..i];
    } else {
      assert listing[..i] == listing;
    }
  }

  /** Entry `i` of the listing contributes its ids right after those of the
      entries before it. */
  lemma ScannedIdsStep(listing: seq<DirEntry>, i: nat)
    requires i < |listing|
    ensures ScannedIds(listing[..i + 1]) == ScannedIds(listing[..i]) + IdsOf(listing[i])
    ensures ScannedIds(listing[..i]) + IdsOf(listing[i]) <= ScannedIds(listing)
  {
    ScannedIdsPrefix(listing, i + 1);
    assert listing[..i + 1][..i] == listing[..i];
  }

  /** The elements of `b` sit in `c` right after `a` when `a + b` is a
      prefix of `c`. */
  lemma PrefixAt<T>(a: seq<T>, b: seq<T>, c: seq<T>, k: nat)
    requires a + b <= c && k < |b|
    ensures |a| + k < |c| && c[|a| + k] == b[k]
  {
    assert (a + b)[|a| + k] == b[k];
  }

  /** The ids of a directory's entries, one by one. */
  lemma {:induction false} EntryIdsAt(dir: string, entries: seq<string>, j: nat)
    requires j < |entries|
    ensures EntryIds(dir, entries)[j] == dir + entries[j]
    decreases |entries|
  {
    var last := |entries| - 1;
    if j < last {
      EntryIdsAt(dir, entries[..last], j);
    }
  }

  /** The ids of a split list of entries are those of its two parts. */
  lemma {:induction false} EntryIdsAppend(dir: string, a: seq<string>, b: seq<string>)
    ensures EntryIds(dir, a + b) == EntryIds(dir, a) + EntryIds(dir, b)
    decreases |b|
  {
    if b == [] {
      assert a + b == a;
    } else {
      var last := |b| - 1;
      assert (a + b)[..|a + b| - 1] == a + b[..last];
      EntryIdsAppend(dir, a, b[..last]);
    }
  }

  /** Every visited id is the name of a directory of the listing followed
      by the name of one of that directory's entries. */
  lemma {:induction false} ScannedIdsSound(listing: seq<DirEntry>, id: ObjectId)
    requires id in ScannedIds(listing)
    ensures exists i, j :: 0 <= i < |listing| && listing[i].isDir && 0 <= j < |listing[i].children|
                           && id == listing[i].name + listing[i].children[j]
    decreases |listing|
  {
    var init := listing[..|listing| - 1];
    var d := listing[|listing| - 1];
    if id in ScannedIds(init) {
      ScannedIdsSound(init, id);
      var i, j :| 0 <= i < |init| && init[i].isDir && 0 <= j < |init[i].children|
                  && id == init[i].name + init[i].children[j];
      assert listing[i] == init[i];
    } else {
      var j :| 0 <= j < |IdsOf(d)| && IdsOf(d)[j] == id;
      EntryIdsAt(d.name, d.children, j);
      assert listing[|listing| - 1] == d;
    }
  }

  /** Every entry of every directory of the listing is visited, as the
      directory's name followed by the entry's name. */
  lemma ScannedIdsComplete(listing: seq<DirEntry>, i: nat, j: nat)
    requires i < |listing| && listing[i].isDir && j < |listing[i].children|
    ensures listing[i].name + listing[i].children[j] in ScannedIds(listing)
  {
    ScannedIdsStep(listing, i);
    PrefixAt(ScannedIds(listing[..i]), IdsOf(listing[i]), ScannedIds(listing), j);
    EntryIdsAt(listing[i].name, listing[i].children, j);
  }

  /** One more key: its value is assigned to it, or its exception escapes. */
  lemma AssignExtend<V>(keys: seq<ObjectId>, results: seq<Result<V>>, key: ObjectId, x: Result<V>)
    requires |keys| == |results|
    ensures Assign(keys + [key], results + [x]) ==
      match Assign(keys, results)
      case Err(e) => Err(e)
      case Ok(m) =>
        match x
        case Err(e) => Err(e)
        case Ok(value) => Ok(m[key := value])
  {
    assert (keys + [key])[..|keys|] == keys;
    assert (results + [x])[..|results|] == results;
  }

  /** Once a key has raised, the keys after it do not matter. */
  lemma {:induction false} AssignKeepsError<V>(keys: seq<ObjectId>, results: seq<Result<V>>,
                                               moreKeys: seq<ObjectId>, moreResults: seq<Result<V>>)
    requires |keys| == |results| && |moreKeys| == |moreResults| && Assign(keys, results).Err?
    ensures Assign(keys + moreKeys, results + moreResults) == Assign(keys, results)
    decreases |moreKeys|
  {
    if moreKeys == [] {
      assert keys + moreKeys == keys;
      assert results + moreResults == results;
    } else {
      var last := |moreKeys| - 1;
      AssignKeepsError(keys, results, moreKeys[..last], moreResults[..last]);
      assert keys + moreKeys == (keys + moreKeys[..last]) + [moreKeys[last]];
      assert results + moreResults == (results + moreResults[..last]) + [moreResults[last]];
      AssignExtend(keys + moreKeys[..last], results + moreResults[..last], moreKeys[last], moreResults[last]);
    }
  }

  /** Filling succeeds exactly when every result is a value. */
  lemma {:induction false} AssignSucceeds<V>(keys: seq<ObjectId>, results: seq<Result<V>>)
    requires |keys| == |results|
    ensures Assign(keys, results).Ok? <==> forall k :: 0 <= k < |results| ==> results[k].Ok?
    decreases |keys|
  {
    if keys != [] {
      var last := |keys| - 1;
      AssignSucceeds(keys[..last], results[..last]);
      assert forall j :: 0 <= j < last ==> results[..last][j] == results[j];
    }
  }

  /** A filled dictionary maps exactly the keys, each to the value of the
      last position holding it: a later assignment to the same key
      overwrites an earlier one. */
  ghost predicate LastAssigned<V>(keys: seq<ObjectId>, results: seq<Result<V>>, key: ObjectId, k: int, value: V)
    requires |keys| == |results|
  {
    0 <= k < |keys| && keys[k] == key && results[k] == Ok(value)
    && forall j :: k < j < |keys| ==> keys[j] != key
  }

  lemma {:induction false} AssignContents<V>(keys: seq<ObjectId>, results: seq<Result<V>>)
    requires |keys| == |results| && Assign(keys, results).Ok?
    ensures var m := Assign(keys, results).value;
      (forall key :: key in m <==> key in keys)
      && forall key :: key in m ==> exists k :: LastAssigned(keys, results, key, k, m[key])
    decreases |keys|
  {
    if keys != [] {
      var last := |keys| - 1;
      var init := keys[..last];
      AssignContents(init, results[..last]);
      var m := Assign(keys, results).value;
      forall key | key in m
        ensures key in keys
        ensures exists k :: LastAssigned(keys, results, key, k, m[key])
      {
        if key == keys[last] {
          assert LastAssigned(keys, results, key, last, m[key]);
        } else {
          var k :| LastAssigned(init, results[..last], key, k, m[key]);
          assert LastAssigned(keys, results, key, k, m[key]);
        }
      }
      forall key | key in keys
        ensures key in m
      {
        var k :| 0 <= k < |keys| && keys[k] == key;
        if k < last {
          assert init[k] == key;
        }
      }
    }
  }

  /** A failed filling raises the exception of the first result holding one. */
  lemma {:induction false} AssignFirstError<V>(keys: seq<ObjectId>, results: seq<Result<V>>)
    requires |keys| == |results| && Assign(keys, results).Err?
    ensures exists k :: FirstErr(results, k, Assign(keys, results).error)
    decreases |keys|
  {
    var last := |keys| - 1;
    var init := results[..last];
    var e := Assign(keys, results).error;
    assert forall j :: 0 <= j < last ==> init[j] == results[j];
    if Assign(keys[..last], init).Err? {
      AssignFirstError(keys[..last], init);
      var k :| FirstErr(init, k, e);
      assert FirstErr(results, k, e);
    } else {
      AssignSucceeds(keys[..last], init);
      assert FirstErr(results, last, e);
    }
  }

  /** The id at position `k` of `ids` is the first to raise, and raises `e`. */
  ghost predicate FirstRaise(v: View, ids: seq<ObjectId>, k: int, e: Error, rank: map<ObjectId, nat>)
    requires Acyclic(v, rank)
  {
    0 <= k < |ids| && Resolve(v, ids[k], rank) == Err(e)
    && forall j :: 0 <= j < k ==> Resolve(v, ids[j], rank).Ok?
  }

  /** The walk over the visited ids `ids` succeeds exactly when every one of
      them resolves; the dictionary then maps exactly those ids, each to the
      node it resolves to; otherwise the walk raises the exception of the
      first id whose resolution raises. */
  lemma ScanIdsResult(v: View, ids: seq<ObjectId>, rank: map<ObjectId, nat>)
    requires Acyclic(v, rank)
    ensures var r := ScanIds(v, ids, rank);
      (r.Ok? <==> forall k :: 0 <= k < |ids| ==> Resolve(v, ids[k], rank).Ok?)
      && (r.Ok? ==> (forall id :: id in r.value <==> id in ids)
                    && forall id :: id in r.value ==> Resolve(v, id, rank) == Ok(r.value[id]))
      && (r.Err? ==> exists k :: FirstRaise(v, ids, k, r.error, rank))
  {
    var rs := Results(v, ids, rank);
    var r := ScanIds(v, ids, rank);
    assert forall k :: 0 <= k < |ids| ==> rs[k] == Resolve(v, ids[k], rank);
    AssignSucceeds(ids, rs);
    if r.Ok? {
      AssignContents(ids, rs);
      forall id | id in r.value
        ensures Resolve(v, id, rank) == Ok(r.value[id])
      {
        var k :| LastAssigned(ids, rs, id, k, r.value[id]);
      }
    } else {
      AssignFirstError(ids, rs);
      var k :| FirstErr(rs, k, r.error);
      assert FirstRaise(v, ids, k, r.error, rank);
    }
  }

  /** A completed walk over the listing maps exactly the names of the
      directories' entries prefixed by their directory's name, each to the
      node that name resolves to. */
  lemma ScanKeys(v: View, listing: seq<DirEntry>, rank: map<ObjectId, nat>)
    requires Acyclic(v, rank) && Scan(v, listing, rank).Ok?
    ensures var m := Scan(v, listing, rank).value;
      (forall i, j :: 0 <= i < |listing| && listing[i].isDir && 0 <= j < |listing[i].children|
         ==> listing[i].name + listing[i].children[j] in m)
      && forall id :: id in m ==>
           Resolve(v, id, rank) == Ok(m[id])
           && exists i, j :: 0 <= i < |listing| && listing[i].isDir && 0 <= j < |listing[i].children|
                             && id == listing[i].name + listing[i].children[j]
  {
    var m := Scan(v, listing, rank).value;
    ScanIdsResult(v, ScannedIds(listing), rank);
    forall i, j | 0 <= i < |listing| && listing[i].isDir && 0 <= j < |listing[i].children|
      ensures listing[i].name + listing[i].children[j] in m
    {
      ScannedIdsComplete(listing, i, j);
    }
    forall id | id in m
      ensures exists i, j :: 0 <= i < |listing| && listing[i].isDir && 0 <= j < |listing[i].children|
                             && id == listing[i].name + listing[i].children[j]
    {
      ScannedIdsSound(listing, id);
    }
  }

  /** The results for a concatenation of ids are the concatenation of the
      results. */
  lemma ResultsAppend(v: View, a: seq<ObjectId>, b: seq<ObjectId>, rank: map<ObjectId, nat>)
    requires Acyclic(v, rank)
    ensures Results(v, a + b, rank) == Results(v, a, rank) + Results(v, b, rank)
  {
  }

  /** One more visited id: the node it resolves to is assigned to it, or its
      exception escapes. */
  lemma ScanExtend(v: View, ids: seq<ObjectId>, id: ObjectId, m: map<ObjectId, Option<Node>>, rank: map<ObjectId, nat>)
    requires Acyclic(v, rank) && ScanIds(v, ids, rank) == Ok(m)
    ensures Resolve(v, id, rank).Err? ==> ScanIds(v, ids + [id], rank) == Err(Resolve(v, id, rank).error)
    ensures Resolve(v, id, rank).Ok? ==> ScanIds(v, ids + [id], rank) == Ok(m[id := Resolve(v, id, rank).value])
  {
    ResultsAppend(v, ids, [id], rank);
    AssignExtend(ids, Results(v, ids, rank), id, Resolve(v, id, rank));
  }

  /** Once the walk over `ids` has raised, the ids visited after them do
      not matter. */
  lemma ScanKeepsError(v: View, ids: seq<ObjectId>, more: seq<ObjectId>, rank: map<ObjectId, nat>)
    requires Acyclic(v, rank) && ScanIds(v, ids, rank).Err?
    ensures ScanIds(v, ids + more, rank) == ScanIds(v, ids, rank)
  {
    ResultsAppend(v, ids, more, rank);
    AssignKeepsError(ids, Results(v, ids, rank), more, Results(v, more, rank));
  }

  /** A listing with no entry inside any directory gives the empty
      dictionary. */
  lemma {:induction false} EmptyScan(v: View, listing: seq<DirEntry>, rank: map<ObjectId, nat>)
    requires Acyclic(v, rank)
    requires forall i :: 0 <= i < |listing| && listing[i].isDir ==> listing[i].children == []
    ensures Scan(v, listing, rank) == Ok(map[])
  {
    var ids := ScannedIds(listing);
    if ids != [] {
      ScannedIdsSound(listing, ids[0]);
      assert false;
    }
  }

  /** One more entry of the directory `dir`: the node its id resolves to is
      assigned to that id, or its exception escapes. */
  lemma ScanEntryStep(v: View, done: seq<ObjectId>, dir: string, entries: seq<string>, j: nat,
                      m: map<ObjectId, Option<Node>>, rank: map<ObjectId, nat>)
    requires Acyclic(v, rank) && j < |entries| && ScanIds(v, done + EntryIds(dir, entries[..j]), rank) == Ok(m)
    ensures var id := dir + entries[j]; var after := ScanIds(v, done + EntryIds(dir, entries[..j + 1]), rank);
      (Resolve(v, id, rank).Err? ==> after == Err(Resolve(v, id, rank).error))
      && (Resolve(v, id, rank).Ok? ==> after == Ok(m[id := Resolve(v, id, rank).value]))
  {
    var before := done + EntryIds(dir, entries[..j]);
    assert entries[..j + 1][..j] == entries[..j];
    assert done + EntryIds(dir, entries[..j + 1]) == before + [dir + entries[j]];
    ScanExtend(v, before, dir + entries[j], m, rank);
  }

  /** Once an entry of the directory `dir` has raised, its later entries do
      not matter. */
  lemma ScanEntryStops(v: View, done: seq<ObjectId>, dir: string, entries: seq<string>, j: nat, rank: map<ObjectId, nat>)
    requires Acyclic(v, rank) && j <= |entries| && ScanIds(v, done + EntryIds(dir, entries[..j]), rank).Err?
    ensures ScanIds(v, done + EntryIds(dir, entries), rank) == ScanIds(v, done + EntryIds(dir, entries[..j]), rank)
  {
    assert entries == entries[..j] + entries[j..];
    EntryIdsAppend(dir, entries[..j], entries[j..]);
    assert done + EntryIds(dir, entries) == (done + EntryIds(dir, entries[..j])) + EntryIds(dir, entries[j..]);
    ScanKeepsError(v, done + EntryIds(dir, entries[..j]), EntryIds(dir, entries[j..]), rank);
  }

  /** The inner loop of `get_tree_from_objects`: resolving the entries of
      the directory `d` and adding them to the dictionary `treeObj` built so
      far for the ids `done`. */
  method ScanDirectory(v: View, d: DirEntry, ghost done: seq<ObjectId>, treeObj: map<ObjectId, Option<Node>>,
                       ghost rank: map<ObjectId, nat>)
    returns (r: Result<map<ObjectId, Option<Node>>>)
    requires Acyclic(v, rank) && ScanIds(v, done, rank) == Ok(treeObj)
    ensures r == ScanIds(v, done + EntryIds(d.name, d.children), rank)
  {
    var table := treeObj;
    assert done + EntryIds(d.name, d.children[..0]) == done;
    for j := 0 to |d.children|
      invariant ScanIds(v, done + EntryIds(d.name, d.children[..j]), rank) == Ok(table)
    {
      var sha := d.name + d.children[j];
      ScanEntryStep(v, done, d.name, d.children, j, table, rank);
      var current := GetObject(v, sha, rank);
      if current.Err? {
        ScanEntryStops(v, done, d.name, d.children, j + 1, rank);
        return Err(current.error);
      }
      table := table[sha := current.value];
    }
    assert d.children[..|d.children|] == d.children;
    return Ok(table);
  }

  /** `get_tree_from_objects`, step by step: the loop over the listing,
      descending into each directory. */
  method GetTreeFromObjects(v: View, listing: seq<DirEntry>, ghost rank: map<ObjectId, nat>)
    returns (r: Result<map<ObjectId, Option<Node>>>)
    requires Acyclic(v, rank)
    ensures r == Scan(v, listing, rank)
  {
    var treeObj: map<ObjectId, Option<Node>> := map[];
    for i := 0 to |listing|
      invariant ScanIds(v, ScannedIds(listing[..i]), rank) == Ok(treeObj)
    {
      var d := listing[i];
      ScannedIdsStep(listing, i);
      if d.isDir {
        assert IdsOf(d) == EntryIds(d.name, d.children);
        var scanned := ScanDirectory(v, d, ScannedIds(listing[..i]), treeObj, rank);
        if scanned.Err? {
          ghost var seen := ScannedIds(listing[..i + 1]);
          ghost var all := ScannedIds(listing);
          assert all == seen + all[|seen|..];
          ScanKeepsError(v, seen, all[|seen|..], rank);
          return Err(scanned.error);
        }
        treeObj := scanned.value;
      } else {
        assert ScannedIds(listing[..i]) + IdsOf(d) == ScannedIds(listing[..i]);
      }
    }
    assert listing[..|listing|] == listing;
    return Ok(treeObj);
  }
}
